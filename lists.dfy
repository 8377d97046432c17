/** Sequence operations behind the in-place list handling of the merge-request
    assignment task: Python's `list.remove`, and the relation "one list is the
    other with some droppable elements deleted, order kept". */
module Lists {

  /** Python's `list.remove(x)`: deletes the first element equal to `x`.
      Python raises ValueError when `x` is absent; callers here only remove
      an element they have just read from the list. */
  function RemoveFirst<T(==)>(s: seq<T>, x: T): (r: seq<T>)
    requires x in s
    ensures |r| == |s| - 1
  {
    if s[0] == x then s[1..] else [s[0]] + RemoveFirst(s[1..], x)
  }

  /** `RemoveFirst` takes away one copy of `x` and nothing else. */
  lemma {:induction false} RemoveFirstMultiset<T>(s: seq<T>, x: T)
    requires x in s
    ensures multiset(RemoveFirst(s, x)) == multiset(s) - multiset{x}
  {
    assert s == [s[0]] + s[1..];
    if s[0] != x {
      RemoveFirstMultiset(s[1..], x);
    }
  }

  /** `RemoveFirst` cuts out exactly the element at the first index
      holding `x`, keeping everything before and after it. */
  lemma {:induction false} RemoveFirstAt<T>(s: seq<T>, x: T, i: nat)
    requires i < |s| && s[i] == x && x !in s[..i]
    ensures RemoveFirst(s, x) == s[..i] + s[i + 1..]
  {
    if i > 0 {
      var t := s[1..];
      assert s[..i] == [s[0]] + t[..i - 1];
      assert x != s[0] && x !in t[..i - 1];
      assert RemoveFirst(s, x) == [s[0]] + RemoveFirst(t, x);
      RemoveFirstAt(t, x, i - 1);
      calc {
        RemoveFirst(s, x);
        [s[0]] + (t[..i - 1] + t[i..]);
        { assert t[i..] == s[i + 1..]; }
        ([s[0]] + t[..i - 1]) + s[i + 1..];
      }
    }
  }

  /** `r` is `s` with some elements deleted, every deleted element satisfying
      `drop`; the relative order of the kept elements is that of `s`. */
  predicate DropsOnly<T(==)>(drop: T -> bool, r: seq<T>, s: seq<T>)
    decreases |s|
  {
    if s == [] then r == []
    else
      (r != [] && r[0] == s[0] && DropsOnly(drop, r[1..], s[1..]))
      || (drop(s[0]) && DropsOnly(drop, r, s[1..]))
  }

  /** The ideal filter: the elements of `s` that `drop` rejects, in order. */
  function Kept<T(==,!new)>(drop: T -> bool, s: seq<T>): (r: seq<T>)
    ensures forall x :: x in r <==> x in s && !drop(x)
    ensures |r| <= |s|
  {
    if s == [] then []
    else if drop(s[0]) then Kept(drop, s[1..])
    else [s[0]] + Kept(drop, s[1..])
  }

  lemma {:induction false} DropsOnlyReflexive<T>(drop: T -> bool, s: seq<T>)
    ensures DropsOnly(drop, s, s)
  {
    if s != [] {
      DropsOnlyReflexive(drop, s[1..]);
    }
  }

  /** Deleting one droppable element is a legal deletion. */
  lemma {:induction false} RemoveFirstDropsOnly<T>(drop: T -> bool, s: seq<T>, x: T)
    requires x in s && drop(x)
    ensures DropsOnly(drop, RemoveFirst(s, x), s)
  {
    if s[0] == x {
      DropsOnlyReflexive(drop, s[1..]);
    } else {
      RemoveFirstDropsOnly(drop, s[1..], x);
      var r := RemoveFirst(s, x);
      assert r[1..] == RemoveFirst(s[1..], x);
    }
  }

  lemma {:induction false} DropsOnlyTransitive<T>(drop: T -> bool, a: seq<T>, b: seq<T>, c: seq<T>)
    requires DropsOnly(drop, a, b) && DropsOnly(drop, b, c)
    ensures DropsOnly(drop, a, c)
    decreases |c|
  {
    if c == [] {
      assert b == [];
    } else if b != [] && b[0] == c[0] && DropsOnly(drop, b[1..], c[1..]) {
      if a != [] && a[0] == b[0] && DropsOnly(drop, a[1..], b[1..]) {
        DropsOnlyTransitive(drop, a[1..], b[1..], c[1..]);
      } else {
        assert drop(b[0]) && DropsOnly(drop, a, b[1..]);
        DropsOnlyTransitive(drop, a, b[1..], c[1..]);
      }
    } else {
      assert drop(c[0]) && DropsOnly(drop, b, c[1..]);
      DropsOnlyTransitive(drop, a, b, c[1..]);
    }
  }

  /** A deletion allowed by a stricter rule is allowed by a looser one. */
  lemma {:induction false} DropsOnlyWeaken<T>(p: T -> bool, q: T -> bool, r: seq<T>, s: seq<T>)
    requires forall x :: p(x) ==> q(x)
    requires DropsOnly(p, r, s)
    ensures DropsOnly(q, r, s)
    decreases |s|
  {
    if s != [] {
      if r != [] && r[0] == s[0] && DropsOnly(p, r[1..], s[1..]) {
        DropsOnlyWeaken(p, q, r[1..], s[1..]);
      } else {
        DropsOnlyWeaken(p, q, r, s[1..]);
      }
    }
  }

  /** A legal deletion loses none of the elements `drop` rejects: filtering
      both lists gives the same list. */
  lemma {:induction false} DropsOnlyKept<T(!new)>(drop: T -> bool, r: seq<T>, s: seq<T>)
    requires DropsOnly(drop, r, s)
    ensures Kept(drop, r) == Kept(drop, s)
    decreases |s|
  {
    if s != [] {
      if r != [] && r[0] == s[0] && DropsOnly(drop, r[1..], s[1..]) {
        DropsOnlyKept(drop, r[1..], s[1..]);
      } else {
        DropsOnlyKept(drop, r, s[1..]);
      }
    }
  }

  /** A legal deletion keeps only elements of the original, and no more of
      each than the original had. */
  lemma {:induction false} DropsOnlySubMultiset<T>(drop: T -> bool, r: seq<T>, s: seq<T>)
    requires DropsOnly(drop, r, s)
    ensures multiset(r) <= multiset(s)
    ensures |r| <= |s|
    decreases |s|
  {
    if s != [] {
      assert s == [s[0]] + s[1..];
      if r != [] && r[0] == s[0] && DropsOnly(drop, r[1..], s[1..]) {
        DropsOnlySubMultiset(drop, r[1..], s[1..]);
        assert r == [r[0]] + r[1..];
      } else {
        DropsOnlySubMultiset(drop, r, s[1..]);
      }
    }
  }

  /** The filter is itself a legal deletion. */
  lemma {:induction false} KeptDropsOnly<T(!new)>(drop: T -> bool, s: seq<T>)
    ensures DropsOnly(drop, Kept(drop, s), s)
  {
    if s != [] {
      KeptDropsOnly(drop, s[1..]);
      if !drop(s[0]) {
        var r := Kept(drop, s);
        assert r[1..] == Kept(drop, s[1..]);
      }
    }
  }

  /** Filtering distributes over appending one element at the end. */
  lemma {:induction false} KeptAppend<T(!new)>(drop: T -> bool, s: seq<T>, x: T)
    ensures Kept(drop, s + [x]) == Kept(drop, s) + (if drop(x) then [] else [x])
    decreases |s|
  {
    if s == [] {
      assert [x][1..] == [];
    } else {
      assert (s + [x])[1..] == s[1..] + [x];
      KeptAppend(drop, s[1..], x);
    }
  }
}
