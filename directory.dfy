/** The Broker's backend directory as values: the descriptor `Server` builds, the effect of
    `Regist` and `Unregist` on the list of descriptors, and the round-robin cursor of
    `GetNextServer`. The class Broker.Broker applies these to its fields. */
module Directory {
  import opened Text

  /** The four-element ArrayList `Server(address, port, id, path)` builds. */
  datatype Backend = Backend(address: string, port: Int32, id: Int32, path: string)

  /** An element of an untyped ArrayList: a string or a boxed int. Object.Equals never
      equates the two kinds. */
  datatype Field = Str(s: string) | Num(n: int)

  /** The ArrayList of a descriptor, in the order `Server` adds the values. */
  function Fields(b: Backend): (f: seq<Field>)
    ensures |f| == 4
  {
    [Str(b.address), Num(b.port), Num(b.id), Str(b.path)]
  }

  /** The element-wise (IStructuralEquatable) comparison `Unregist` makes is equality of
      descriptors. */
  lemma FieldsPositional(x: Backend, y: Backend)
    ensures Fields(x) == Fields(y) <==> x == y
  {
    if Fields(x) == Fields(y) {
      assert Fields(x)[0] == Fields(y)[0] && Fields(x)[1] == Fields(y)[1];
      assert Fields(x)[2] == Fields(y)[2] && Fields(x)[3] == Fields(y)[3];
    }
  }

  /** The duplicate test of `Regist`: each of the four values is an element of the entry
      (ArrayList.Contains), wherever it stands. */
  predicate ContainsAll(entry: Backend, b: Backend) {
    && Str(b.address) in Fields(entry)
    && Num(b.port) in Fields(entry)
    && Str(b.path) in Fields(entry)
    && Num(b.id) in Fields(entry)
  }

  /** Membership matches a string against both string slots and an int against both int
      slots. */
  lemma ContainsAllMeaning(entry: Backend, b: Backend)
    ensures ContainsAll(entry, b) <==>
      && (b.address == entry.address || b.address == entry.path)
      && (b.port == entry.port || b.port == entry.id)
      && (b.path == entry.address || b.path == entry.path)
      && (b.id == entry.port || b.id == entry.id)
  {
  }

  /** The directory after `Regist(b)`: the foreach leaves in its first iteration, so only
      the first entry is compared; an empty directory gets the descriptor. */
  function Registered(s: seq<Backend>, b: Backend): (r: seq<Backend>)
    ensures r == s || r == s + [b]
    ensures s == [] ==> r == [b]
    ensures s != [] ==> (r == s <==> ContainsAll(s[0], b))
  {
    if |s| != 0 then
      if ContainsAll(s[0], b) then s else s + [b]
    else s + [b]
  }

  /** The directory after `Unregist(b)`: the first entry equal to `b` is removed. */
  function Unregistered(s: seq<Backend>, b: Backend): (r: seq<Backend>)
    ensures |r| <= |s| <= |r| + 1
    decreases |s|
  {
    if s == [] then []
    else if s[0] == b then s[1..]
    else [s[0]] + Unregistered(s[1..], b)
  }

  /** Deregistering a descriptor that is not listed changes nothing. */
  lemma {:induction false} UnregisteredAbsent(s: seq<Backend>, b: Backend)
    requires b !in s
    ensures Unregistered(s, b) == s
    decreases |s|
  {
    if s != [] {
      assert s[0] != b;
      assert b !in s[1..] by { assert forall x :: x in s[1..] ==> x in s; }
      UnregisteredAbsent(s[1..], b);
      assert s == [s[0]] + s[1..];
    }
  }

  /** Deregistering takes one copy of `b` out of the directory's multiset of entries, and
      nothing else. */
  lemma {:induction false} UnregisteredMultiset(s: seq<Backend>, b: Backend)
    ensures multiset(Unregistered(s, b)) == multiset(s) - multiset{b}
    decreases |s|
  {
    if s != [] {
      var t := s[1..];
      assert s == [s[0]] + t;
      assert multiset(s) == multiset{s[0]} + multiset(t);
      if s[0] != b {
        UnregisteredMultiset(t, b);
        assert multiset(Unregistered(s, b)) == multiset{s[0]} + (multiset(t) - multiset{b});
      }
    }
  }

  /** So the directory shrinks by one exactly when `b` was listed. */
  lemma UnregisteredCount(s: seq<Backend>, b: Backend)
    ensures b !in s ==> Unregistered(s, b) == s
    ensures b in s ==> |Unregistered(s, b)| == |s| - 1
  {
    if b !in s {
      UnregisteredAbsent(s, b);
    } else {
      UnregisteredMultiset(s, b);
      assert b in multiset(s);
      assert |multiset(s) - multiset{b}| == |multiset(s)| - 1;
    }
  }

  /** `Unregistered` removes exactly the first match and keeps the rest in order. */
  lemma {:induction false} UnregisteredFirstMatch(s: seq<Backend>, b: Backend, k: nat)
    requires k < |s| && s[k] == b && b !in s[..k]
    ensures Unregistered(s, b) == s[..k] + s[k + 1..]
    decreases k
  {
    if k > 0 {
      var t := s[1..];
      assert s[..k] == [s[0]] + t[..k - 1];
      assert s[0] != b by { assert s[0] in s[..k]; }
      assert b !in t[..k - 1] by {
        forall x | x in t[..k - 1] ensures x in s[..k] { }
      }
      UnregisteredFirstMatch(t, b, k - 1);
      assert Unregistered(s, b) == [s[0]] + Unregistered(t, b);
      assert t[k..] == s[k + 1..];
    }
  }

  /** Registering a descriptor that is not yet listed and deregistering it again restores
      the directory, whether or not the first-entry test suppressed the insertion. */
  lemma RegisterThenUnregister(s: seq<Backend>, b: Backend)
    requires b !in s
    ensures Unregistered(Registered(s, b), b) == s
  {
    if Registered(s, b) == s + [b] {
      var t := s + [b];
      assert t[..|s|] == s && t[|s|] == b;
      UnregisteredFirstMatch(t, b, |s|);
      assert t[|s| + 1..] == [];
    } else {
      UnregisteredAbsent(s, b);
    }
  }

  /** When `b` is listed once, after the first entry, registering it again appends a second
      copy, and deregistering then removes the earlier copy: the directory comes back
      reordered, with `b` moved to the end. */
  lemma ReRegisterReorders(first: Backend, pre: seq<Backend>, b: Backend, rest: seq<Backend>)
    requires !ContainsAll(first, b)
    requires b !in pre && b !in rest
    ensures Registered([first] + pre + [b] + rest, b) == [first] + pre + [b] + rest + [b]
    ensures Unregistered(Registered([first] + pre + [b] + rest, b), b)
         == [first] + pre + rest + [b]
  {
    var s := [first] + pre + [b] + rest + [b];
    var k := 1 + |pre|;
    assert first != b by { assert ContainsAll(b, b); }
    assert s[..k] == [first] + pre && s[k] == b;
    assert b !in s[..k];
    UnregisteredFirstMatch(s, b, k);
    assert s[k + 1..] == rest + [b];
  }

  /** A descriptor whose strings and ints are each other's swapped is taken for a duplicate
      of a one-entry directory, so it is never added. */
  lemma SwappedFieldsSuppressed(e: Backend)
    ensures Registered([e], Backend(e.path, e.id, e.port, e.address)) == [e]
  {
  }

  // ---------------------------------------------------------------------------
  // Round robin

  /** The index `GetNextServer` picks and stores: one past the cursor, modulo the count. */
  function NextIndex(cursor: int, count: int): (r: int)
    requires cursor >= 0 && count > 0
    ensures 0 <= r < count
    ensures cursor + 1 < count ==> r == cursor + 1
    ensures cursor + 1 == count ==> r == 0
  {
    (cursor + 1) % count
  }

  /** The cursor after `calls` selections over a directory left at `count` entries. */
  function CursorAfter(cursor: nat, count: nat, calls: nat): nat
    requires count > 0
  {
    if calls == 0 then cursor else NextIndex(CursorAfter(cursor, count, calls - 1), count)
  }

  /** From the initial cursor 0, the selections are 1, 2, ..., count - 1, 0, 1, ...:
      the k-th selection is k modulo count. */
  lemma {:induction false} RoundRobinOrder(count: nat, calls: nat)
    requires count > 0
    ensures CursorAfter(0, count, calls) == calls % count
  {
    if calls > 0 {
      RoundRobinOrder(count, calls - 1);
      ModStep(calls - 1, count);
    }
  }

  /** Taking one more step modulo n after reducing gives the same as reducing after it. */
  lemma ModStep(a: nat, n: nat)
    requires n > 0
    ensures NextIndex(a % n, n) == (a + 1) % n
  {
    var q, m := a / n, a % n;
    if m + 1 < n {
      ModUnique(a + 1, n, q, m + 1);
    } else {
      ModUnique(a + 1, n, q + 1, 0);
    }
  }

  /** Euclidean division has one quotient and one remainder. */
  lemma ModUnique(x: int, n: int, q: int, m: int)
    requires n > 0 && 0 <= m < n && x == q * n + m
    ensures x % n == m
  {
    var d := q - x / n;
    assert d * n == x % n - m;
    MulBetween(d, n);
  }

  lemma MulBetween(d: int, n: int)
    requires n > 0 && -n < d * n < n
    ensures d == 0
  {
  }
}
