/** `CageCandidateListGenerator` of killer.py: every ordered list of
    distinct digits 1..9 with 1..maxSize entries, stored under its sum in
    the order a depth-first search emits it. */
module CageLists {
  import opened Wrappers
  import opened Digits
  import opened Seqs

  type Lists = seq<seq<int>>

  /** A list the generator emits: 1..maxSize pairwise-distinct digits. */
  ghost predicate IsCandidateList(cl: seq<int>, maxSize: int) {
    1 <= |cl| <= maxSize && Distinct(cl) && AllDigits(cl)
  }

  datatype Generator = Generator(maxSize: int, candidateListsByTotal: map<int, Lists>)

  /** `_addCandidateList`: append `cl` to the lists stored under `total`,
      creating the entry when it is missing. */
  function AddCandidateList(m: map<int, Lists>, cl: seq<int>, total: int): (r: map<int, Lists>)
    ensures r.Keys == m.Keys + {total}
    ensures r[total] == (if total in m then m[total] else []) + [cl]
    ensures forall t :: t in m && t != total ==> r[t] == m[t]
  {
    if total in m then m[total := m[total] + [cl]] else m[total := [cl]]
  }

  /** `_generateCandidateLists(candidateList, total)`, threading the
      dictionary through the recursion. */
  function Generate(m: map<int, Lists>, cl: seq<int>, total: int, maxSize: int): map<int, Lists>
    decreases maxSize - |cl|, 10
  {
    if |cl| < maxSize then GenerateLoop(m, cl, total, maxSize, 1) else m
  }

  /** The `for i in range(1,10)` loop of `_generateCandidateLists`, from i on. */
  function GenerateLoop(m: map<int, Lists>, cl: seq<int>, total: int, maxSize: int, i: int): map<int, Lists>
    requires |cl| < maxSize && 1 <= i <= 10
    decreases maxSize - |cl|, 10 - i
  {
    if i == 10 then m
    else if i !in cl then
      var next, nextTotal := cl + [i], total + i;
      GenerateLoop(Generate(AddCandidateList(m, next, nextTotal), next, nextTotal, maxSize), cl, total, maxSize, i + 1)
    else
      GenerateLoop(m, cl, total, maxSize, i + 1)
  }

  /** `CageCandidateListGenerator(maxSize)`. */
  function NewGenerator(maxSize: int): Generator {
    Generator(maxSize, Generate(map[], [], 0, maxSize))
  }

  /** Reference definition: the lists the search emits below `cl`, in
      emission order. */
  function Emitted(cl: seq<int>, maxSize: int): Lists
    decreases maxSize - |cl|, 10
  {
    if |cl| < maxSize then EmittedFrom(cl, maxSize, 1) else []
  }

  function EmittedFrom(cl: seq<int>, maxSize: int, i: int): Lists
    requires |cl| < maxSize && 1 <= i <= 10
    decreases maxSize - |cl|, 10 - i
  {
    if i == 10 then []
    else (if i !in cl then [cl + [i]] + Emitted(cl + [i], maxSize) else []) + EmittedFrom(cl, maxSize, i + 1)
  }

  /** `_addCandidateList(l, sum(l))` for each list in turn. */
  function AddAll(m: map<int, Lists>, lists: Lists): map<int, Lists>
    decreases |lists|
  {
    if |lists| == 0 then m else AddAll(AddCandidateList(m, lists[0], Sum(lists[0])), lists[1..])
  }

  lemma {:induction false} AddAllAppend(m: map<int, Lists>, a: Lists, b: Lists)
    ensures AddAll(m, a + b) == AddAll(AddAll(m, a), b)
    decreases |a|
  {
    if |a| == 0 {
      assert a + b == b;
    } else {
      assert (a + b)[1..] == a[1..] + b;
      AddAllAppend(AddCandidateList(m, a[0], Sum(a[0])), a[1..], b);
    }
  }

  function SumIs(t: int): seq<int> -> bool {
    cl => Sum(cl) == t
  }

  /** After adding `lists`, a total is a key iff it was one or some added
      list has that sum, and its entry is the old one followed by the added
      lists with that sum, in order. */
  lemma {:induction false} AddAllEntry(m: map<int, Lists>, lists: Lists, t: int)
    ensures t in AddAll(m, lists) <==> t in m || exists e :: e in lists && Sum(e) == t
    ensures t in AddAll(m, lists) ==>
      AddAll(m, lists)[t] == (if t in m then m[t] else []) + Filter(lists, SumIs(t))
    decreases |lists|
  {
    if |lists| > 0 {
      var e0 := lists[0];
      var m' := AddCandidateList(m, e0, Sum(e0));
      AddAllEntry(m', lists[1..], t);
      assert lists == [e0] + lists[1..];
      assert Filter(lists, SumIs(t)) == (if Sum(e0) == t then [e0] else []) + Filter(lists[1..], SumIs(t));
      if t in AddAll(m, lists) {
        assert (if t in m' then m'[t] else []) == (if t in m then m[t] else []) + (if Sum(e0) == t then [e0] else []);
      }
    }
  }

  /** The threaded generator adds exactly the emitted lists, in order. */
  lemma {:induction false} GenerateIsAddAll(m: map<int, Lists>, cl: seq<int>, maxSize: int)
    ensures Generate(m, cl, Sum(cl), maxSize) == AddAll(m, Emitted(cl, maxSize))
    decreases maxSize - |cl|, 11, 0
  {
    if |cl| < maxSize {
      GenerateLoopIsAddAll(m, cl, maxSize, 1);
    }
  }

  lemma {:induction false} GenerateLoopIsAddAll(m: map<int, Lists>, cl: seq<int>, maxSize: int, i: int)
    requires |cl| < maxSize && 1 <= i <= 10
    ensures GenerateLoop(m, cl, Sum(cl), maxSize, i) == AddAll(m, EmittedFrom(cl, maxSize, i))
    decreases maxSize - |cl|, 10 - i, 1
  {
    if i < 10 {
      if i !in cl {
        FreshDigitIsAddAll(m, cl, maxSize, i);
      } else {
        GenerateLoopIsAddAll(m, cl, maxSize, i + 1);
        assert EmittedFrom(cl, maxSize, i) == EmittedFrom(cl, maxSize, i + 1);
      }
    }
  }

  /** One turn of the loop with a digit not yet in `cl`. */
  lemma {:induction false} FreshDigitIsAddAll(m: map<int, Lists>, cl: seq<int>, maxSize: int, i: int)
    requires |cl| < maxSize && 1 <= i < 10 && i !in cl
    ensures GenerateLoop(m, cl, Sum(cl), maxSize, i) == AddAll(m, EmittedFrom(cl, maxSize, i))
    decreases maxSize - |cl|, 10 - i, 0
  {
    var next := cl + [i];
    SumAppend(cl, i);
    var m1 := AddCandidateList(m, next, Sum(next));
    var m2 := Generate(m1, next, Sum(next), maxSize);
    var below, rest := Emitted(next, maxSize), EmittedFrom(cl, maxSize, i + 1);
    GenerateLoopFresh(m, cl, maxSize, i);
    EmittedFromFresh(cl, maxSize, i);
    AddAllSingle(m, next);
    GenerateIsAddAll(m1, next, maxSize);
    GenerateLoopIsAddAll(m2, cl, maxSize, i + 1);
    AddAllThree(m, [next], below, rest);
  }

  lemma GenerateLoopFresh(m: map<int, Lists>, cl: seq<int>, maxSize: int, i: int)
    requires |cl| < maxSize && 1 <= i < 10 && i !in cl
    ensures var next := cl + [i];
      GenerateLoop(m, cl, Sum(cl), maxSize, i) ==
      GenerateLoop(Generate(AddCandidateList(m, next, Sum(next)), next, Sum(next), maxSize), cl, Sum(cl), maxSize, i + 1)
  {
    SumAppend(cl, i);
  }

  lemma EmittedFromFresh(cl: seq<int>, maxSize: int, i: int)
    requires |cl| < maxSize && 1 <= i < 10 && i !in cl
    ensures EmittedFrom(cl, maxSize, i) == [cl + [i]] + Emitted(cl + [i], maxSize) + EmittedFrom(cl, maxSize, i + 1)
  {
  }

  lemma AddAllThree(m: map<int, Lists>, a: Lists, b: Lists, c: Lists)
    ensures AddAll(m, a + b + c) == AddAll(AddAll(AddAll(m, a), b), c)
  {
    AddAllAppend(m, a, b);
    AddAllAppend(m, a + b, c);
  }

  lemma AddAllSingle(m: map<int, Lists>, cl: seq<int>)
    ensures AddAll(m, [cl]) == AddCandidateList(m, cl, Sum(cl))
  {
    assert [cl][1..] == [];
  }

  /** `e` strictly extends `cl` and is a list the generator may emit. */
  ghost predicate ExtendsTo(cl: seq<int>, e: seq<int>, maxSize: int) {
    |cl| < |e| <= maxSize && e[..|cl|] == cl && Distinct(e) && AllDigits(e)
  }

  lemma OneMoreDigit(cl: seq<int>, e: seq<int>, maxSize: int, i: int)
    requires Distinct(cl) && AllDigits(cl) && |cl| < maxSize && IsDigit(i) && i !in cl
    ensures (ExtendsTo(cl, e, maxSize) && e[|cl|] == i) <==> (e == cl + [i] || ExtendsTo(cl + [i], e, maxSize))
  {
    var next := cl + [i];
    if ExtendsTo(cl, e, maxSize) && e[|cl|] == i {
      if |e| == |cl| + 1 {
        assert e == e[..|cl|] + [e[|cl|]];
      } else {
        assert e[..|cl| + 1] == e[..|cl|] + [e[|cl|]];
      }
    }
    if ExtendsTo(next, e, maxSize) {
      assert e[..|cl|] == e[..|next|][..|cl|];
      assert e[|cl|] == e[..|next|][|cl|];
    }
  }

  /** Every list the search can emit below `cl` is emitted exactly once,
      and nothing else is. */
  lemma {:induction false} EmittedCount(cl: seq<int>, maxSize: int, e: seq<int>)
    requires Distinct(cl) && AllDigits(cl)
    ensures Occurrences(Emitted(cl, maxSize), e) == if ExtendsTo(cl, e, maxSize) then 1 else 0
    decreases maxSize - |cl|, 11, 0
  {
    if |cl| < maxSize {
      EmittedFromCount(cl, maxSize, 1, e);
    }
  }

  lemma DistinctAppend(cl: seq<int>, i: int)
    requires Distinct(cl) && AllDigits(cl) && IsDigit(i) && i !in cl
    ensures Distinct(cl + [i]) && AllDigits(cl + [i])
  {
  }

  lemma {:induction false} EmittedFromCount(cl: seq<int>, maxSize: int, i: int, e: seq<int>)
    requires Distinct(cl) && AllDigits(cl) && |cl| < maxSize && 1 <= i <= 10
    ensures Occurrences(EmittedFrom(cl, maxSize, i), e) ==
      if ExtendsTo(cl, e, maxSize) && e[|cl|] >= i then 1 else 0
    decreases maxSize - |cl|, 10 - i, 2
  {
    if i < 10 {
      EmittedFromCount(cl, maxSize, i + 1, e);
      EmittedFromStep(cl, maxSize, i, e);
    } else {
      NextIsDigit(cl, e, maxSize);
    }
  }

  lemma NextIsDigit(cl: seq<int>, e: seq<int>, maxSize: int)
    ensures ExtendsTo(cl, e, maxSize) ==> IsDigit(e[|cl|])
  {
  }

  /** One turn of the loop: digit i contributes the extensions whose next
      entry is i. */
  lemma {:induction false} EmittedFromStep(cl: seq<int>, maxSize: int, i: int, e: seq<int>)
    requires Distinct(cl) && AllDigits(cl) && |cl| < maxSize && 1 <= i < 10
    requires Occurrences(EmittedFrom(cl, maxSize, i + 1), e) ==
      if ExtendsTo(cl, e, maxSize) && e[|cl|] >= i + 1 then 1 else 0
    ensures Occurrences(EmittedFrom(cl, maxSize, i), e) ==
      if ExtendsTo(cl, e, maxSize) && e[|cl|] >= i then 1 else 0
    decreases maxSize - |cl|, 10 - i, 1
  {
    var rest := EmittedFrom(cl, maxSize, i + 1);
    if i !in cl {
      var head := [cl + [i]] + Emitted(cl + [i], maxSize);
      assert EmittedFrom(cl, maxSize, i) == head + rest;
      OccurrencesAppend(head, rest, e);
      EmittedFromCountHead(cl, maxSize, i, e);
    } else {
      assert EmittedFrom(cl, maxSize, i) == rest;
      if ExtendsTo(cl, e, maxSize) {
        UsedDigitNotNext(cl, maxSize, i, e);
      }
    }
  }

  /** A digit already in `cl` cannot come next in an extension of it. */
  lemma UsedDigitNotNext(cl: seq<int>, maxSize: int, i: int, e: seq<int>)
    requires i in cl && ExtendsTo(cl, e, maxSize)
    ensures e[|cl|] != i
  {
    var j :| 0 <= j < |cl| && cl[j] == i;
    assert e[j] == cl[j];
  }

  lemma {:induction false} EmittedFromCountHead(cl: seq<int>, maxSize: int, i: int, e: seq<int>)
    requires Distinct(cl) && AllDigits(cl) && |cl| < maxSize && 1 <= i < 10 && i !in cl
    ensures Occurrences([cl + [i]] + Emitted(cl + [i], maxSize), e) ==
      if ExtendsTo(cl, e, maxSize) && e[|cl|] == i then 1 else 0
    decreases maxSize - |cl|, 0, 0
  {
    var next := cl + [i];
    OccurrencesAppend([next], Emitted(next, maxSize), e);
    assert Occurrences([next], e) == if e == next then 1 else 0;
    DistinctAppend(cl, i);
    EmittedCount(next, maxSize, e);
    OneMoreDigit(cl, e, maxSize, i);
    if e == next {
      assert !ExtendsTo(next, e, maxSize);
    }
  }

  /** The generator's dictionary: a total is a key iff some list of 1..maxSize
      distinct digits has that sum, and the entry of a total holds each such
      list with that sum exactly once, and nothing else. */
  lemma GeneratorContents(maxSize: int)
    ensures var m := NewGenerator(maxSize).candidateListsByTotal;
      forall t :: t in m <==> exists e :: IsCandidateList(e, maxSize) && Sum(e) == t
    ensures var m := NewGenerator(maxSize).candidateListsByTotal;
      forall t, e :: t in m ==> multiset(m[t])[e] == if IsCandidateList(e, maxSize) && Sum(e) == t then 1 else 0
  {
    var m := NewGenerator(maxSize).candidateListsByTotal;
    var emitted := Emitted([], maxSize);
    GenerateIsAddAll(map[], [], maxSize);
    forall t
      ensures t in m <==> exists e :: e in emitted && Sum(e) == t
      ensures t in m ==> m[t] == Filter(emitted, SumIs(t))
    {
      AddAllEntry(map[], emitted, t);
    }
    forall e
      ensures e in emitted <==> IsCandidateList(e, maxSize)
    {
      EmittedCount([], maxSize, e);
      OccurrencesIsMultiplicity(emitted, e);
      assert e[..0] == [];
    }
    forall t, e | t in m
      ensures multiset(m[t])[e] == if IsCandidateList(e, maxSize) && Sum(e) == t then 1 else 0
    {
      EmittedCount([], maxSize, e);
      OccurrencesIsMultiplicity(emitted, e);
      assert e[..0] == [];
    }
  }

  function HasLength(size: int): seq<int> -> bool {
    cl => |cl| == size
  }

  /** `getPermutedCandidateLists(total, size)`: the lists stored under
      `total` that have `size` entries, in stored order; a total that is
      not a key raises KeyError. */
  function GetPermutedCandidateLists(gen: Generator, total: int, size: int): (r: Result<Lists>)
    ensures r.Failure? <==> total !in gen.candidateListsByTotal
    ensures r.Failure? ==> r.error == MissingKey
    ensures r.Success? ==> IsSubsequence(r.value, gen.candidateListsByTotal[total])
    ensures r.Success? ==> forall cl :: cl in r.value <==> cl in gen.candidateListsByTotal[total] && |cl| == size
    ensures r.Success? ==> forall cl ::
      multiset(r.value)[cl] == if |cl| == size then multiset(gen.candidateListsByTotal[total])[cl] else 0
  {
    if total !in gen.candidateListsByTotal then Failure(MissingKey)
    else Success(Filter(gen.candidateListsByTotal[total], HasLength(size)))
  }

  /** Asked of a fresh generator, `getPermutedCandidateLists` succeeds iff
      some list of 1..maxSize distinct digits sums to `total`, and then
      returns exactly once each list of `size` distinct digits, at most
      `maxSize` of them, that sums to `total`. */
  lemma PermutedLists(maxSize: int, total: int, size: int)
    ensures var r := GetPermutedCandidateLists(NewGenerator(maxSize), total, size);
      r.Success? <==> exists e :: IsCandidateList(e, maxSize) && Sum(e) == total
    ensures var r := GetPermutedCandidateLists(NewGenerator(maxSize), total, size);
      r.Success? ==> forall e :: (multiset(r.value)[e] ==
        if IsCandidateList(e, maxSize) && Sum(e) == total && |e| == size then 1 else 0)
  {
    GeneratorContents(maxSize);
  }
}
