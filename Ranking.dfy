/** `Array.prototype.sort` with a comparator, which the language requires to be stable.

    The comparator is given as `le(a, b)`: "a may come before b" (the comparator returns a
    value <= 0). It is a total preorder: entries with `le` both ways are ties, and a stable
    sort keeps ties in their input order. The sort is modelled as a stable insertion sort. */
module Ranking {

  ghost predicate TotalPreorder<T(!new)>(le: (T, T) -> bool)
  {
    && (forall a, b :: le(a, b) || le(b, a))
    && (forall a, b, c :: le(a, b) && le(b, c) ==> le(a, c))
  }

  predicate Tie<T>(le: (T, T) -> bool, a: T, b: T)
  {
    le(a, b) && le(b, a)
  }

  ghost predicate Sorted<T>(s: seq<T>, le: (T, T) -> bool)
  {
    forall i, j :: 0 <= i < j < |s| ==> le(s[i], s[j])
  }

  /** The entries of `s` that tie with `t`, in their order in `s`. */
  function Ties<T>(s: seq<T>, t: T, le: (T, T) -> bool): seq<T>
  {
    if s == [] then [] else (if Tie(le, s[0], t) then [s[0]] else []) + Ties(s[1..], t, le)
  }

  /** Inserts `x` after every entry that may come before it. */
  function Insert<T>(s: seq<T>, x: T, le: (T, T) -> bool): seq<T>
  {
    if s == [] then [x]
    else if !le(s[0], x) then [x] + s
    else [s[0]] + Insert(s[1..], x, le)
  }

  function StableSort<T>(s: seq<T>, le: (T, T) -> bool): seq<T>
  {
    if s == [] then [] else Insert(StableSort(s[..|s| - 1], le), s[|s| - 1], le)
  }

  lemma {:induction false} TiesAppend<T>(a: seq<T>, b: seq<T>, t: T, le: (T, T) -> bool)
    ensures Ties(a + b, t, le) == Ties(a, t, le) + Ties(b, t, le)
  {
    if a != [] {
      assert (a + b)[0] == a[0];
      assert (a + b)[1..] == a[1..] + b;
      TiesAppend(a[1..], b, t, le);
    } else {
      assert a + b == b;
    }
  }

  lemma {:induction false} NoTies<T>(s: seq<T>, t: T, le: (T, T) -> bool)
    requires forall k :: 0 <= k < |s| ==> !Tie(le, s[k], t)
    ensures Ties(s, t, le) == []
  {
    if s != [] {
      NoTies(s[1..], t, le);
    }
  }

  lemma {:induction false} InsertMultiset<T>(s: seq<T>, x: T, le: (T, T) -> bool)
    ensures multiset(Insert(s, x, le)) == multiset(s) + multiset{x}
  {
    if s != [] && le(s[0], x) {
      InsertMultiset(s[1..], x, le);
      assert s == [s[0]] + s[1..];
    }
  }

  lemma {:induction false} InsertSorted<T(!new)>(s: seq<T>, x: T, le: (T, T) -> bool)
    requires TotalPreorder(le) && Sorted(s, le)
    ensures Sorted(Insert(s, x, le), le)
  {
    if s != [] && le(s[0], x) {
      InsertSorted(s[1..], x, le);
      var r := Insert(s[1..], x, le);
      InsertMultiset(s[1..], x, le);
      forall j | 0 <= j < |r|
        ensures le(s[0], r[j])
      {
        assert r[j] in multiset(r);
        assert r[j] == x || r[j] in multiset(s[1..]);
        if r[j] != x {
          var k :| 0 <= k < |s[1..]| && s[1..][k] == r[j];
          assert s[k + 1] == r[j];
        }
      }
    }
  }

  lemma {:induction false} InsertTies<T(!new)>(s: seq<T>, x: T, t: T, le: (T, T) -> bool)
    requires TotalPreorder(le) && Sorted(s, le)
    ensures Ties(Insert(s, x, le), t, le) == Ties(s, t, le) + (if Tie(le, x, t) then [x] else [])
  {
    if s == [] {
    } else if !le(s[0], x) {
      if Tie(le, x, t) {
        forall k | 0 <= k < |s|
          ensures !Tie(le, s[k], t)
        {
          assert k == 0 || le(s[0], s[k]);
        }
        NoTies(s, t, le);
        assert [x] + s == [x] + [] + s;
        TiesAppend([x], s, t, le);
      } else {
        TiesAppend([x], s, t, le);
      }
    } else {
      InsertTies(s[1..], x, t, le);
      assert Insert(s, x, le)[1..] == Insert(s[1..], x, le);
    }
  }

  /** Whatever the comparator, the sort returns a permutation of its input. */
  lemma {:induction false} StableSortPermutes<T>(s: seq<T>, le: (T, T) -> bool)
    ensures multiset(StableSort(s, le)) == multiset(s)
  {
    if s != [] {
      var init, x := s[..|s| - 1], s[|s| - 1];
      StableSortPermutes(init, le);
      InsertMultiset(StableSort(init, le), x, le);
      assert s == init + [x];
    }
  }

  lemma {:induction false} StableSortSorted<T(!new)>(s: seq<T>, le: (T, T) -> bool)
    requires TotalPreorder(le)
    ensures Sorted(StableSort(s, le), le)
  {
    if s != [] {
      var init := s[..|s| - 1];
      StableSortSorted(init, le);
      InsertSorted(StableSort(init, le), s[|s| - 1], le);
    }
  }

  lemma {:induction false} StableSortTies<T(!new)>(s: seq<T>, t: T, le: (T, T) -> bool)
    requires TotalPreorder(le)
    ensures Ties(StableSort(s, le), t, le) == Ties(s, t, le)
  {
    if s != [] {
      var init, x := s[..|s| - 1], s[|s| - 1];
      StableSortTies(init, t, le);
      StableSortSorted(init, le);
      InsertTies(StableSort(init, le), x, t, le);
      assert s == init + [x];
      TiesAppend(init, [x], t, le);
    }
  }

  /** The sort is stable: the result is sorted, a permutation of the input, and the entries
      of every tie class appear in their input order. */
  lemma StableSortCorrect<T(!new)>(s: seq<T>, le: (T, T) -> bool)
    requires TotalPreorder(le)
    ensures Sorted(StableSort(s, le), le)
    ensures multiset(StableSort(s, le)) == multiset(s)
    ensures forall t :: Ties(StableSort(s, le), t, le) == Ties(s, t, le)
  {
    StableSortSorted(s, le);
    StableSortPermutes(s, le);
    forall t
      ensures Ties(StableSort(s, le), t, le) == Ties(s, t, le)
    {
      StableSortTies(s, t, le);
    }
  }

  /** The leaderboard loops: every key, in order, whose score is positive, as an entry. */
  function Board<E>(keys: seq<string>, score: string -> nat, entry: (string, nat) -> E): seq<E>
  {
    if keys == [] then []
    else
      var k := keys[|keys| - 1];
      Board(keys[..|keys| - 1], score, entry) + (if score(k) > 0 then [entry(k, score(k))] else [])
  }

  /** A leaderboard holds exactly the keys with a positive score. */
  lemma {:induction false} BoardMembers<E>(keys: seq<string>, score: string -> nat, entry: (string, nat) -> E, x: E)
    ensures x in Board(keys, score, entry) <==>
            exists i :: 0 <= i < |keys| && score(keys[i]) > 0 && x == entry(keys[i], score(keys[i]))
  {
    if keys != [] {
      var n := |keys| - 1;
      BoardMembers(keys[..n], score, entry, x);
      if x in Board(keys, score, entry) && x !in Board(keys[..n], score, entry) {
        assert score(keys[n]) > 0 && x == entry(keys[n], score(keys[n]));
      }
      if exists i :: 0 <= i < |keys| && score(keys[i]) > 0 && x == entry(keys[i], score(keys[i])) {
        var i :| 0 <= i < |keys| && score(keys[i]) > 0 && x == entry(keys[i], score(keys[i]));
        if i < n {
          assert keys[..n][i] == keys[i];
        }
      }
    }
  }

  /** `(a, b) => b.score - a.score` as "a may come before b": sorting by non-increasing score. */
  lemma ByDescendingIsPreorder<E(!new)>(le: (E, E) -> bool, value: E -> nat)
    requires forall a, b :: le(a, b) == (value(a) >= value(b))
    ensures TotalPreorder(le)
  {
  }
}
