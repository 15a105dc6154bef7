/** Quiz selection: Collections.shuffle (the JDK's Fisher-Yates pass, with the
    random source supplied by the caller) and what getQuestionsForQuiz returns
    once the category's questions have been fetched. */
module QuizSelection {
  import opened Entities
  import opened Repository

  /** What Random.nextInt(bound) promises: a value in [0, bound). */
  ghost predicate DrawsBelow(nextInt: nat -> nat) {
    forall bound: nat :: 0 < bound ==> nextInt(bound) < bound
  }

  predicate Distinct<T(==)>(s: seq<T>) {
    forall i, j :: 0 <= i < j < |s| ==> s[i] != s[j]
  }

  /** Collections.swap(list, i, j): list.set(i, list.set(j, list.get(i))). */
  function Swap<T>(s: seq<T>, i: nat, j: nat): (r: seq<T>)
    requires i < |s| && j < |s|
    ensures |r| == |s| && r[i] == s[j] && r[j] == s[i]
    ensures forall k :: 0 <= k < |s| && k != i && k != j ==> r[k] == s[k]
  {
    s[j := s[i]][i := s[j]]
  }

  /** The shuffle loop from position i down: for i, i - 1, ..., 2 it swaps the
      element at i - 1 with the one at nextInt(i). */
  function ShuffleFrom<T>(s: seq<T>, i: nat, nextInt: nat -> nat): (r: seq<T>)
    requires i <= |s|
    requires DrawsBelow(nextInt)
    ensures |r| == |s|
    decreases i
  {
    if i <= 1 then s else ShuffleFrom(Swap(s, i - 1, nextInt(i)), i - 1, nextInt)
  }

  /** Collections.shuffle: the loop over the whole list. */
  function Shuffled<T>(s: seq<T>, nextInt: nat -> nat): (r: seq<T>)
    requires DrawsBelow(nextInt)
    ensures |r| == |s|
  {
    ShuffleFrom(s, |s|, nextInt)
  }

  lemma SwapPermutes<T>(s: seq<T>, i: nat, j: nat)
    requires i < |s| && j < |s|
    ensures multiset(Swap(s, i, j)) == multiset(s)
    ensures Distinct(s) ==> Distinct(Swap(s, i, j))
  {
  }

  /** Shuffling rearranges the elements and never duplicates or loses one. */
  lemma {:induction false} ShuffleFromPermutes<T>(s: seq<T>, i: nat, nextInt: nat -> nat)
    requires i <= |s| && DrawsBelow(nextInt)
    ensures multiset(ShuffleFrom(s, i, nextInt)) == multiset(s)
    ensures Distinct(s) ==> Distinct(ShuffleFrom(s, i, nextInt))
    decreases i
  {
    if i > 1 {
      var t := Swap(s, i - 1, nextInt(i));
      SwapPermutes(s, i - 1, nextInt(i));
      ShuffleFromPermutes(t, i - 1, nextInt);
    }
  }

  /** Shuffling the questions and then taking their ids is shuffling their ids. */
  lemma {:induction false} ShuffleFromIds(qs: seq<Question>, i: nat, nextInt: nat -> nat)
    requires i <= |qs| && DrawsBelow(nextInt)
    ensures Ids(ShuffleFrom(qs, i, nextInt)) == ShuffleFrom(Ids(qs), i, nextInt)
    decreases i
  {
    if i > 1 {
      var j := nextInt(i);
      IdsSwap(qs, i - 1, j);
      ShuffleFromIds(Swap(qs, i - 1, j), i - 1, nextInt);
    }
  }

  lemma IdsSwap(qs: seq<Question>, i: nat, j: nat)
    requires i < |qs| && j < |qs|
    ensures Ids(Swap(qs, i, j)) == Swap(Ids(qs), i, j)
  {
    var l, r := Ids(Swap(qs, i, j)), Swap(Ids(qs), i, j);
    assert |l| == |r|;
    forall k | 0 <= k < |l| ensures l[k] == r[k] {
    }
  }

  /** The shuffle from position i reads the random source only at bounds up to i. */
  lemma {:induction false} ShuffleFromReadsBelow<T>(s: seq<T>, i: nat, f: nat -> nat, g: nat -> nat)
    requires i <= |s| && DrawsBelow(f) && DrawsBelow(g)
    requires forall k: nat :: k <= i ==> f(k) == g(k)
    ensures ShuffleFrom(s, i, f) == ShuffleFrom(s, i, g)
    decreases i
  {
    if i > 1 {
      ShuffleFromReadsBelow(Swap(s, i - 1, f(i)), i - 1, f, g);
    }
  }

  /** With at most one position left, an arrangement with the same tail and the
      same multiset of heads is the sequence itself. */
  lemma ShortArrangement<T>(s: seq<T>, p: seq<T>, i: nat)
    requires i <= 1 && i <= |s| == |p|
    requires multiset(s[..i]) == multiset(p[..i])
    requires s[i..] == p[i..]
    ensures s == p
  {
    if i == 1 {
      assert multiset(s[..1]) == multiset{s[0]};
      assert p[0] in multiset(s[..1]);
    }
    assert s == s[..i] + s[i..] && p == p[..i] + p[i..];
  }

  lemma CancelLast<T>(a: seq<T>, b: seq<T>, x: T)
    requires multiset(a + [x]) == multiset(b + [x])
    ensures multiset(a) == multiset(b)
  {
    calc {
      multiset(a);
      multiset(a + [x]) - multiset{x};
      multiset(b + [x]) - multiset{x};
      multiset(b);
    }
  }

  lemma SwapInHead<T>(s: seq<T>, i: nat, j: nat)
    requires j < i <= |s|
    ensures Swap(s, i - 1, j)[..i] == Swap(s[..i], i - 1, j)
    ensures Swap(s, i - 1, j)[i..] == s[i..]
  {
  }

  /** Where the element wanted at position i - 1 currently is. */
  lemma SourceIndex<T>(s: seq<T>, p: seq<T>, i: nat) returns (j: nat)
    requires 1 <= i <= |s| == |p|
    requires multiset(s[..i]) == multiset(p[..i])
    ensures j < i && s[j] == p[i - 1]
  {
    assert p[i - 1] in p[..i];
    assert p[i - 1] in multiset(s[..i]);
    j :| 0 <= j < i && s[..i][j] == p[i - 1];
  }

  /** One step of the construction: swapping the wanted element into place i - 1
      leaves a smaller instance of the same problem. */
  lemma SwapIntoPlace<T>(s: seq<T>, p: seq<T>, i: nat, j: nat)
    requires 1 < i <= |s| == |p| && j < i
    requires multiset(s[..i]) == multiset(p[..i])
    requires s[i..] == p[i..]
    requires s[j] == p[i - 1]
    ensures var t := Swap(s, i - 1, j);
      multiset(t[..i - 1]) == multiset(p[..i - 1]) && t[i - 1..] == p[i - 1..]
  {
    var t := Swap(s, i - 1, j);
    var x := p[i - 1];
    SwapInHead(s, i, j);
    SwapPermutes(s[..i], i - 1, j);
    assert t[..i] == t[..i - 1] + [x];
    assert p[..i] == p[..i - 1] + [x];
    CancelLast(t[..i - 1], p[..i - 1], x);
    assert t[i - 1..] == [x] + t[i..];
    assert p[i - 1..] == [x] + p[i..];
  }

  /** A random source for the smaller problem extends to one for the larger:
      draw j at bound i, and what the smaller source draws below i. */
  lemma DrawFirst<T>(s: seq<T>, p: seq<T>, i: nat, j: nat, g: nat -> nat)
    requires 1 < i <= |s| && j < i && DrawsBelow(g)
    requires ShuffleFrom(Swap(s, i - 1, j), i - 1, g) == p
    ensures ReachableFrom(s, i, p)
  {
    var f := (k: nat) => if k == i then j else g(k);
    assert DrawsBelow(f);
    ShuffleFromReadsBelow(Swap(s, i - 1, j), i - 1, f, g);
    assert ShuffleFrom(s, i, f) == p;
  }

  /** Some random source makes the shuffle from i turn s into p. */
  ghost predicate ReachableFrom<T>(s: seq<T>, i: nat, p: seq<T>)
    requires i <= |s|
  {
    exists nextInt :: DrawsBelow(nextInt) && ShuffleFrom(s, i, nextInt) == p
  }

  lemma ShortReaches<T>(s: seq<T>, p: seq<T>, i: nat)
    requires i <= 1 && i <= |s| == |p|
    requires multiset(s[..i]) == multiset(p[..i])
    requires s[i..] == p[i..]
    ensures ReachableFrom(s, i, p)
  {
    var zero := (k: nat) => 0;
    assert DrawsBelow(zero);
    ShortArrangement(s, p, i);
    assert ShuffleFrom(s, i, zero) == p;
  }

  /** Every rearrangement p of s whose tail from i on is already in place is
      the outcome of the shuffle from i for some random source. */
  lemma {:induction false} ShuffleFromReaches<T>(s: seq<T>, p: seq<T>, i: nat)
    requires i <= |s| == |p|
    requires multiset(s[..i]) == multiset(p[..i])
    requires s[i..] == p[i..]
    ensures ReachableFrom(s, i, p)
    decreases i
  {
    if i <= 1 {
      ShortReaches(s, p, i);
    } else {
      var j := SourceIndex(s, p, i);
      var t := Swap(s, i - 1, j);
      SwapIntoPlace(s, p, i, j);
      ShuffleFromReaches(t, p, i - 1);
      var g :| DrawsBelow(g) && ShuffleFrom(t, i - 1, g) == p;
      DrawFirst(s, p, i, j, g);
    }
  }

  /** No arrangement is out of reach: for every rearrangement p of s some
      outcome of the random source makes Collections.shuffle produce p. */
  lemma EveryArrangementReachable<T>(s: seq<T>, p: seq<T>)
    requires multiset(s) == multiset(p)
    ensures exists nextInt :: DrawsBelow(nextInt) && Shuffled(s, nextInt) == p
  {
    assert |s| == |multiset(s)| == |multiset(p)| == |p|;
    assert s[..|s|] == s && p[..|p|] == p;
    ShuffleFromReaches(s, p, |s|);
  }

  lemma DistinctIdsIsDistinct(qs: seq<Question>)
    ensures DistinctIds(qs) <==> Distinct(Ids(qs))
  {
  }

  /** full can be rearranged so that prefix comes first. */
  ghost predicate IsPrefixOfPermutation(prefix: seq<int>, full: seq<int>) {
    exists p: seq<int> :: multiset(p) == multiset(full) && |prefix| <= |p| && prefix == p[..|prefix|]
  }

  /** getQuestionsForQuiz after findByCategory has returned `fetched`: an empty
      category gives an empty list; fewer questions than requested gives all
      their ids in fetch order; otherwise the list is shuffled and the first
      numberOfQuestions ids are taken, where Stream.limit throws on a negative
      count and the exception becomes INTERNAL_SERVER_ERROR. */
  function Selection(fetched: seq<Question>, numberOfQuestions: int, nextInt: nat -> nat): (r: ResponseEntity<seq<int>>)
    requires DrawsBelow(nextInt)
    ensures r.status == Ok || (r.status == InternalServerError && r.body == [])
    ensures |r.body| <= |fetched|
  {
    if fetched == [] then ResponseEntity([], Ok)
    else if |fetched| < numberOfQuestions then ResponseEntity(Ids(fetched), Ok)
    else if numberOfQuestions < 0 then ResponseEntity([], InternalServerError)
    else ResponseEntity(Ids(Shuffled(fetched, nextInt)[..numberOfQuestions]), Ok)
  }

  /** The front n elements of a shuffle: distinct when the input is, each taken
      from the input, the front of a rearrangement of the whole input. */
  lemma ShuffledPrefix(ids: seq<int>, n: nat, nextInt: nat -> nat)
    requires DrawsBelow(nextInt)
    requires n <= |ids|
    ensures var body := Shuffled(ids, nextInt)[..n];
      && |body| == n
      && (Distinct(ids) ==> Distinct(body))
      && (forall id :: id in body ==> id in ids)
      && IsPrefixOfPermutation(body, ids)
      && (n == |ids| ==> multiset(body) == multiset(ids))
  {
    var p := Shuffled(ids, nextInt);
    ShuffleFromPermutes(ids, |ids|, nextInt);
    var body := p[..n];
    assert p == body + p[n..];
    assert multiset(p) == multiset(body) + multiset(p[n..]);
    forall id | id in body ensures id in ids {
      assert multiset(p)[id] >= multiset(body)[id] > 0;
      assert multiset(ids)[id] > 0;
    }
    assert IsPrefixOfPermutation(body, ids);
  }

  /** The shuffle-then-take branch of getQuestionsForQuiz, on question ids. */
  lemma ShuffledPrefixMeaning(fetched: seq<Question>, n: nat, nextInt: nat -> nat)
    requires DistinctIds(fetched) && DrawsBelow(nextInt)
    requires n <= |fetched|
    ensures var body := Ids(Shuffled(fetched, nextInt)[..n]);
      && |body| == n
      && Distinct(body)
      && (forall id :: id in body ==> id in Ids(fetched))
      && IsPrefixOfPermutation(body, Ids(fetched))
      && (n == |fetched| ==> multiset(body) == multiset(Ids(fetched)))
  {
    var ids := Ids(fetched);
    DistinctIdsIsDistinct(fetched);
    ShuffleFromIds(fetched, |fetched|, nextInt);
    ShuffledPrefix(ids, n, nextInt);
    assert Ids(Shuffled(fetched, nextInt)[..n]) == Shuffled(ids, nextInt)[..n];
  }

  /** What the caller of getQuestionsForQuiz can rely on, for every outcome of
      the random source: the status is OK unless a non-empty category meets a
      negative count; every returned id is an id of the category and none is
      returned twice; with enough questions exactly numberOfQuestions ids come
      back, taken from the front of a rearrangement of the category's ids, and
      asking for as many as there are gives all of them. */
  lemma SelectionMeaning(fetched: seq<Question>, numberOfQuestions: int, nextInt: nat -> nat)
    requires DistinctIds(fetched) && DrawsBelow(nextInt)
    ensures var r := Selection(fetched, numberOfQuestions, nextInt);
      && (r.status == Ok <==> fetched == [] || numberOfQuestions >= 0)
      && (r.status != Ok ==> r.status == InternalServerError && r.body == [])
      && (forall id :: id in r.body ==> id in Ids(fetched))
      && Distinct(r.body)
      && (fetched == [] ==> r.body == [])
      && (0 < |fetched| < numberOfQuestions ==> r.body == Ids(fetched))
      && (fetched != [] && 0 <= numberOfQuestions <= |fetched| ==>
            |r.body| == numberOfQuestions && IsPrefixOfPermutation(r.body, Ids(fetched)))
      && (fetched != [] && numberOfQuestions == |fetched| ==>
            multiset(r.body) == multiset(Ids(fetched)))
  {
    DistinctIdsIsDistinct(fetched);
    if fetched != [] && 0 <= numberOfQuestions <= |fetched| {
      ShuffledPrefixMeaning(fetched, numberOfQuestions, nextInt);
    }
  }

  /** Some outcome of the random source makes the selection answer `body`. */
  ghost predicate PossibleSelection(fetched: seq<Question>, numberOfQuestions: int, body: seq<int>) {
    exists nextInt :: DrawsBelow(nextInt) && Selection(fetched, numberOfQuestions, nextInt) == ResponseEntity(body, Ok)
  }

  lemma IdsPrefix(qs: seq<Question>, n: nat)
    requires n <= |qs|
    ensures Ids(qs[..n]) == Ids(qs)[..n]
  {
  }

  /** In the shuffle branch the answer is the front of the shuffled ids. */
  lemma SelectionShufflesIds(fetched: seq<Question>, numberOfQuestions: nat, nextInt: nat -> nat)
    requires fetched != [] && numberOfQuestions <= |fetched| && DrawsBelow(nextInt)
    ensures Selection(fetched, numberOfQuestions, nextInt) ==
      ResponseEntity(Shuffled(Ids(fetched), nextInt)[..numberOfQuestions], Ok)
  {
    var q := Shuffled(fetched, nextInt);
    var r := Selection(fetched, numberOfQuestions, nextInt);
    assert r.body == Ids(q[..numberOfQuestions]);
    ShuffleFromIds(fetched, |fetched|, nextInt);
    IdsPrefix(q, numberOfQuestions);
  }

  /** The converse of SelectionMeaning: when the shuffle branch is taken, every
      numberOfQuestions-long front of a rearrangement of the category's ids is
      the answer for some outcome of the random source, so no selection of
      distinct questions is ruled out. */
  lemma SelectionReachesEveryPrefix(fetched: seq<Question>, numberOfQuestions: nat, body: seq<int>)
    requires fetched != [] && numberOfQuestions <= |fetched|
    requires |body| == numberOfQuestions && IsPrefixOfPermutation(body, Ids(fetched))
    ensures PossibleSelection(fetched, numberOfQuestions, body)
  {
    var ids := Ids(fetched);
    var p: seq<int> :| multiset(p) == multiset(ids) && |body| <= |p| && body == p[..|body|];
    EveryArrangementReachable(ids, p);
    var f: nat -> nat :| DrawsBelow(f) && Shuffled(ids, f) == p;
    SelectionShufflesIds(fetched, numberOfQuestions, f);
  }

  /** Collections.shuffle on the list, in place. */
  method Shuffle<T>(a: array<T>, nextInt: nat -> nat)
    requires DrawsBelow(nextInt)
    modifies a
    ensures a[..] == Shuffled(old(a[..]), nextInt)
  {
    var i := a.Length;
    while i > 1
      invariant 0 <= i <= a.Length
      invariant ShuffleFrom(a[..], i, nextInt) == Shuffled(old(a[..]), nextInt)
    {
      var j := nextInt(i);
      var tmp := a[j];
      a[j] := a[i - 1];
      a[i - 1] := tmp;
      i := i - 1;
    }
  }
}
