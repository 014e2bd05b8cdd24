/** The killzone histogram: std::map<int, int> from age at death to the number
    of cells killed in the killzone at that age. */
module Histograms {

  /** The count stored for an age; operator[] reads an absent key as 0. */
  function Get(m: map<int, int>, age: int): int
  {
    if age in m then m[age] else 0
  }

  /** `++(*kill_histogram)[age]`: inserts the key with 0 if absent, then adds one. */
  function Bump(m: map<int, int>, age: int): map<int, int>
  {
    m[age := Get(m, age) + 1]
  }

  /** The histogram after one Bump per age of `ages`, in order. */
  function Record(m: map<int, int>, ages: seq<int>): map<int, int>
  {
    if ages == [] then m else Bump(Record(m, ages[..|ages| - 1]), ages[|ages| - 1])
  }

  /** Bumping adds one to the bumped age, adds it as a key, and leaves every
      other age as it was. */
  lemma BumpGet(m: map<int, int>, age: int)
    ensures Bump(m, age).Keys == m.Keys + {age}
    ensures Get(Bump(m, age), age) == Get(m, age) + 1
    ensures forall a :: a != age ==> Get(Bump(m, age), a) == Get(m, a)
  {
  }

  /** How many times `age` occurs in `ages`. */
  function Occurrences(ages: seq<int>, age: int): nat
  {
    if ages == [] then 0
    else Occurrences(ages[..|ages| - 1], age) + (if ages[|ages| - 1] == age then 1 else 0)
  }

  /** Occurrences is the multiplicity of the age in the multiset of the ages. */
  lemma {:induction false} OccurrencesMultiplicity(ages: seq<int>, age: int)
    ensures Occurrences(ages, age) == multiset(ages)[age]
  {
    if ages != [] {
      var front := ages[..|ages| - 1];
      OccurrencesMultiplicity(front, age);
      assert ages == front + [ages[|ages| - 1]];
    }
  }

  /** Appending one age adds one occurrence of it and none of any other. */
  lemma OccurrencesSnoc(ages: seq<int>, v: int, age: int)
    ensures Occurrences(ages + [v], age) == Occurrences(ages, age) + (if v == age then 1 else 0)
  {
    assert (ages + [v])[..|ages|] == ages;
  }

  /** A non-empty map has a key. */
  lemma HasKey(m: map<int, int>)
    requires m != map[]
    ensures exists k :: k in m
  {
    if forall k :: k !in m {
      assert false;
    }
  }

  /** Sum of all counts. */
  ghost function Sum(m: map<int, int>): int
    decreases m.Keys
  {
    if m == map[] then 0
    else
      HasKey(m);
      var k :| k in m;
      m[k] + Sum(m - {k})
  }

  /** Any key can be taken out first. */
  lemma {:induction false} SumRemove(m: map<int, int>, k: int)
    requires k in m
    ensures Sum(m) == m[k] + Sum(m - {k})
    decreases m.Keys
  {
    var j :| j in m && Sum(m) == m[j] + Sum(m - {j});
    if j != k {
      var mj, mk := m - {j}, m - {k};
      SumRemove(mj, k);
      SumRemove(mk, j);
      assert mj - {k} == mk - {j};
    }
  }

  /** One bump adds exactly one to the sum. */
  lemma BumpSum(m: map<int, int>, age: int)
    ensures Sum(Bump(m, age)) == Sum(m) + 1
  {
    var r := Bump(m, age);
    SumRemove(r, age);
    if age in m {
      SumRemove(m, age);
      assert r - {age} == m - {age};
    } else {
      assert r - {age} == m;
    }
  }

  /** Recording a sequence of ages adds its length to the sum. */
  lemma {:induction false} RecordSum(m: map<int, int>, ages: seq<int>)
    ensures Sum(Record(m, ages)) == Sum(m) + |ages|
  {
    if ages != [] {
      RecordSum(m, ages[..|ages| - 1]);
      BumpSum(Record(m, ages[..|ages| - 1]), ages[|ages| - 1]);
    }
  }

  /** Recording adds to each age's count the number of times the age occurs. */
  lemma {:induction false} RecordGet(m: map<int, int>, ages: seq<int>, age: int)
    ensures Get(Record(m, ages), age) == Get(m, age) + Occurrences(ages, age)
  {
    if ages != [] {
      var front := ages[..|ages| - 1];
      RecordGet(m, front, age);
      BumpGet(Record(m, front), ages[|ages| - 1]);
    }
  }

  /** Recording two runs of ages one after the other is recording their concatenation. */
  lemma {:induction false} RecordAppend(m: map<int, int>, s: seq<int>, t: seq<int>)
    ensures Record(m, s + t) == Record(Record(m, s), t)
  {
    if t == [] {
      assert s + t == s;
    } else {
      var front := t[..|t| - 1];
      RecordAppend(m, s, front);
      assert (s + t)[..|s + t| - 1] == s + front;
    }
  }

  /** The histogram object that main owns and run_generation updates in place. */
  class KillHistogram {
    var counts: map<int, int>

    /** A fresh, empty histogram. */
    constructor ()
      ensures counts == map[]
    {
      counts := map[];
    }

    /** One killzone death at `age`. */
    method Add(age: int)
      modifies this
      ensures counts == Bump(old(counts), age)
      ensures Sum(counts) == Sum(old(counts)) + 1
    {
      BumpSum(counts, age);
      counts := Bump(counts, age);
    }
  }
}
