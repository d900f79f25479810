/** decode_script.py: the RC4 key schedule as 256 swaps in place. The key is any function of the step number. */
module KeySchedule {

  type Key = int -> int

  /** `find_secrect_code`: the bytes 0x00, 0x02, 0x49 of the secret key, over and over. */
  function FindSecretCode(i: int): (result: int)
    ensures result == [0x00, 0x02, 0x49][i % 3]
  {
    if i % 3 == 0 then 0 else if i % 3 == 1 then 2 else 73
  }

  /** Two steps use the same byte of the key exactly when their numbers differ by a multiple of 3. */
  lemma KeyRepeats(i: int, j: int)
    ensures FindSecretCode(i) == FindSecretCode(j) <==> (i - j) % 3 == 0
  {
  }

  /** The list and the running index `j`. */
  datatype State = State(list: seq<int>, j: int)

  ghost predicate Ready(s: State) {
    256 <= |s.list| && 0 <= s.j < 256
  }

  function Swap(s: seq<int>, i: int, j: int): (t: seq<int>)
    requires 0 <= i < |s| && 0 <= j < |s|
    ensures |t| == |s|
  {
    s[i := s[j]][j := s[i]]
  }

  function Step(s: State, i: int, key: Key): (t: State)
    requires Ready(s) && 0 <= i < 256
    ensures Ready(t) && |t.list| == |s.list|
  {
    var j := (s.j + s.list[i] + key(i)) % 256;
    State(Swap(s.list, i, j), j)
  }

  /** The first `n` steps. */
  function Run(s: State, n: nat, key: Key): (t: State)
    requires Ready(s) && n <= 256
    ensures Ready(t) && |t.list| == |s.list|
  {
    if n == 0 then s else Step(Run(s, n - 1, key), n - 1, key)
  }

  class MemoryList {
    var list: seq<int>

    constructor ()
      ensures list == []
    {
      list := [];
    }

    /** `initilize_memory`: the values 0 to 255 are appended. */
    method InitializeMemory()
      modifies this
      ensures list == old(list) + seq(256, i => i)
    {
      for i := 0 to 256
        invariant list == old(list) + seq(i, k => k)
      {
        list := list + [i];
        assert seq(i + 1, k => k) == seq(i, k => k) + [i];
      }
    }

    /** `second_for_loop_algorithm`, for the given key. */
    method SecondForLoop(key: Key)
      requires 256 <= |list|
      modifies this
      ensures list == Run(State(old(list), 0), 256, key).list
    {
      var j := 0;
      for i := 0 to 256
        invariant |list| == |old(list)|
        invariant State(list, j) == Run(State(old(list), 0), i, key)
      {
        j := (j + list[i] + key(i)) % 256;
        var temp := list[i];
        list := list[i := list[j]];
        list := list[j := temp];
      }
    }
  }

  // ----- one step after the other -----

  /** Step `n` adds the entry and the key byte of its number to the index, modulo 256, and exchanges the two entries. */
  lemma StepChanges(s: State, n: nat, key: Key)
    requires Ready(s) && n < 256
    ensures Run(s, 0, key) == s
    ensures var t, u := Run(s, n, key), Run(s, n + 1, key);
            && u.j == (t.j + t.list[n] + key(n)) % 256
            && |u.list| == |t.list| && u.list[n] == t.list[u.j] && u.list[u.j] == t.list[n]
            && forall k :: 0 <= k < |t.list| && k != n && k != u.j ==> u.list[k] == t.list[k]
  {
  }

  /** The first three steps of the script exchange nothing, 1 with 3, and 2 with 78. */
  lemma ScriptStarts()
    ensures var start := State(seq(256, i => i), 0);
            && Run(start, 1, FindSecretCode) == State(start.list, 0)
            && Run(start, 2, FindSecretCode) == State(start.list[1 := 3][3 := 1], 3)
            && Run(start, 3, FindSecretCode) == State(start.list[1 := 3][3 := 1][2 := 78][78 := 2], 78)
  {
    hide Swap;
    var start := State(seq(256, i => i), 0);
    StepChanges(start, 0, FindSecretCode);
    StepChanges(start, 1, FindSecretCode);
    StepChanges(start, 2, FindSecretCode);
    assert Run(start, 1, FindSecretCode).list == start.list;
    assert Run(start, 2, FindSecretCode).list == start.list[1 := 3][3 := 1];
    assert Run(start, 3, FindSecretCode).list == start.list[1 := 3][3 := 1][2 := 78][78 := 2];
  }

  // ----- the schedule rearranges -----

  lemma StepRearranges(s: State, i: int, key: Key)
    requires Ready(s) && 0 <= i < 256
    ensures multiset(Step(s, i, key).list) == multiset(s.list)
    ensures Step(s, i, key).list[256..] == s.list[256..]
  {
  }

  /** Every state holds the starting values in some order, and leaves what lies beyond entry 255 alone. */
  lemma {:induction false} RunRearranges(s: State, n: nat, key: Key)
    requires Ready(s) && n <= 256
    ensures multiset(Run(s, n, key).list) == multiset(s.list)
    ensures Run(s, n, key).list[256..] == s.list[256..]
  {
    if n != 0 {
      RunRearranges(s, n - 1, key);
      StepRearranges(Run(s, n - 1, key), n - 1, key);
    }
  }

  // ----- the schedule can be undone -----

  /** The step taken back: undo the swap, then subtract. */
  function Unstep(t: State, i: int, key: Key): (s: State)
    requires Ready(t) && 0 <= i < 256
    ensures Ready(s) && |s.list| == |t.list|
  {
    var list := Swap(t.list, i, t.j);
    State(list, (t.j - list[i] - key(i)) % 256)
  }

  function Unrun(t: State, n: nat, key: Key): (s: State)
    requires Ready(t) && n <= 256
    ensures Ready(s) && |s.list| == |t.list|
    decreases n
  {
    if n == 0 then t else Unrun(Unstep(t, n - 1, key), n - 1, key)
  }

  lemma SwapUndoes(s: seq<int>, i: int, j: int)
    requires 0 <= i < |s| && 0 <= j < |s|
    ensures Swap(Swap(s, i, j), i, j) == s
  {
  }

  lemma UnstepUndoes(s: State, i: int, key: Key)
    requires Ready(s) && 0 <= i < 256
    ensures Unstep(Step(s, i, key), i, key) == s
    ensures Step(Unstep(s, i, key), i, key) == s
  {
    hide Swap;
    SwapUndoes(s.list, i, Step(s, i, key).j);
    SwapUndoes(s.list, i, s.j);
  }

  /** Both ways: the inverse steps restore the start, and the steps restore the end. */
  lemma {:induction false} ScheduleUndone(s: State, n: nat, key: Key)
    requires Ready(s) && n <= 256
    ensures Unrun(Run(s, n, key), n, key) == s
    ensures Run(Unrun(s, n, key), n, key) == s
    decreases n
  {
    hide Step, Unstep;
    if n != 0 {
      UnstepUndoes(Run(s, n - 1, key), n - 1, key);
      ScheduleUndone(s, n - 1, key);
      UnstepUndoes(s, n - 1, key);
      ScheduleUndone(Unstep(s, n - 1, key), n - 1, key);
    }
  }

  /** For every key the schedule is a bijection on lists and indices. */
  lemma ScheduleIsBijective(key: Key)
    ensures forall s, t :: Ready(s) && Ready(t) && Run(s, 256, key) == Run(t, 256, key) ==> s == t
    ensures forall t :: Ready(t) ==> exists s :: Ready(s) && Run(s, 256, key) == t
  {
    forall s | Ready(s)
      ensures Unrun(Run(s, 256, key), 256, key) == s
      ensures exists u :: Ready(u) && Run(u, 256, key) == s
    {
      ScheduleUndone(s, 256, key);
      assert Ready(Unrun(s, 256, key));
    }
  }

  // ----- parity of the rearrangement -----

  ghost predicate Distinct(s: seq<int>) {
    forall i, j :: 0 <= i < j < |s| ==> s[i] != s[j]
  }

  /** Entries of `s` below `x`. */
  function Below(s: seq<int>, x: int): nat {
    if s == [] then 0 else (if s[0] < x then 1 else 0) + Below(s[1..], x)
  }

  /** Pairs of entries that stand in decreasing order. */
  function Inversions(s: seq<int>): nat {
    if s == [] then 0 else Below(s[1..], s[0]) + Inversions(s[1..])
  }

  lemma {:induction false} BelowNeighbours(s: seq<int>, i: nat, x: int)
    requires i + 1 < |s|
    ensures Below(Swap(s, i, i + 1), x) == Below(s, x)
  {
    var t := Swap(s, i, i + 1);
    if i == 0 {
      assert t[1..][1..] == s[1..][1..];
    } else {
      BelowNeighbours(s[1..], i - 1, x);
      assert t[1..] == Swap(s[1..], i - 1, i);
    }
  }

  /** Swapping two different neighbours makes or removes one inversion. */
  lemma {:induction false} InversionsNeighbours(s: seq<int>, i: nat)
    requires i + 1 < |s| && s[i] != s[i + 1]
    ensures Inversions(Swap(s, i, i + 1)) == Inversions(s) + 1 || Inversions(Swap(s, i, i + 1)) == Inversions(s) - 1
  {
    var t := Swap(s, i, i + 1);
    if i == 0 {
      assert t[1..][1..] == s[1..][1..];
    } else {
      InversionsNeighbours(s[1..], i - 1);
      BelowNeighbours(s[1..], i - 1, s[0]);
      assert t[1..] == Swap(s[1..], i - 1, i);
    }
  }

  /** Swapping two entries of a list of distinct values turns the parity of its inversions. */
  lemma {:induction false} SwapTurnsParity(s: seq<int>, i: nat, j: nat)
    requires Distinct(s) && i < j < |s|
    ensures Inversions(Swap(s, i, j)) % 2 != Inversions(s) % 2
    decreases j - i
  {
    hide Inversions;
    if j == i + 1 {
      InversionsNeighbours(s, i);
    } else {
      var a := Swap(s, i, i + 1);
      var b := Swap(a, i + 1, j);
      assert Swap(b, i, i + 1) == Swap(s, i, j);
      InversionsNeighbours(s, i);
      SwapTurnsParity(a, i + 1, j);
      InversionsNeighbours(b, i);
    }
  }

  /** Steps among the first `n` that swap two different entries. */
  function RealSwaps(s: State, n: nat, key: Key): nat
    requires Ready(s) && n <= 256
  {
    if n == 0 then 0 else RealSwaps(s, n - 1, key) + if Run(s, n, key).j != n - 1 then 1 else 0
  }

  lemma SwapKeepsDistinct(s: seq<int>, i: int, j: int)
    requires Distinct(s) && 0 <= i < |s| && 0 <= j < |s|
    ensures Distinct(Swap(s, i, j)) && Swap(s, i, j) == Swap(s, j, i)
    ensures i == j ==> Swap(s, i, j) == s
  {
  }

  lemma StepParity(s: State, i: int, key: Key)
    requires Ready(s) && 0 <= i < 256 && Distinct(s.list)
    ensures Distinct(Step(s, i, key).list)
    ensures Inversions(Step(s, i, key).list) % 2
            == (Inversions(s.list) + if Step(s, i, key).j != i then 1 else 0) % 2
  {
    var j := Step(s, i, key).j;
    SwapKeepsDistinct(s.list, i, j);
    if i < j {
      SwapTurnsParity(s.list, i, j);
    } else if j < i {
      SwapTurnsParity(s.list, j, i);
    }
  }

  lemma ParitiesAdd(a: int, r: int, b: int, e: int, c: int)
    requires b % 2 == (a + r) % 2 && c % 2 == (b + e) % 2
    ensures c % 2 == (a + (r + e)) % 2
  {
  }

  lemma StepOfParity(s: State, t: State, swaps: nat, i: int, key: Key)
    requires Ready(t) && 0 <= i < 256 && Distinct(t.list)
    requires Inversions(t.list) % 2 == (Inversions(s.list) + swaps) % 2
    ensures Distinct(Step(t, i, key).list)
    ensures Inversions(Step(t, i, key).list) % 2
            == (Inversions(s.list) + (swaps + if Step(t, i, key).j != i then 1 else 0)) % 2
  {
    StepParity(t, i, key);
    ParitiesAdd(Inversions(s.list), swaps, Inversions(t.list), if Step(t, i, key).j != i then 1 else 0,
                Inversions(Step(t, i, key).list));
  }

  /** For every key the final list is an even rearrangement of the starting one exactly when the number of steps
      that really swap is even. */
  lemma {:induction false} ScheduleParity(s: State, n: nat, key: Key)
    requires Ready(s) && n <= 256 && Distinct(s.list)
    ensures Distinct(Run(s, n, key).list)
    ensures Inversions(Run(s, n, key).list) % 2 == (Inversions(s.list) + RealSwaps(s, n, key)) % 2
  {
    hide Step, Inversions, Distinct;
    if n != 0 {
      ScheduleParity(s, n - 1, key);
      StepOfParity(s, Run(s, n - 1, key), RealSwaps(s, n - 1, key), n - 1, key);
    }
  }

  lemma {:induction false} SortedHasNoInversions(s: seq<int>)
    requires forall i, j :: 0 <= i < j < |s| ==> s[i] < s[j]
    ensures Inversions(s) == 0
  {
    if s != [] {
      NoneBelow(s[1..], s[0]);
      SortedHasNoInversions(s[1..]);
    }
  }

  lemma {:induction false} NoneBelow(s: seq<int>, x: int)
    requires forall i :: 0 <= i < |s| ==> x < s[i]
    ensures Below(s, x) == 0
  {
    if s != [] {
      NoneBelow(s[1..], x);
    }
  }

  /** The program as it runs: from 0..255 in order, the parity of the result is that of its real swaps. */
  lemma ProgramParity(key: Key)
    ensures var start := State(seq(256, i => i), 0);
            Inversions(Run(start, 256, key).list) % 2 == RealSwaps(start, 256, key) % 2
  {
    hide Inversions, Run, RealSwaps;
    var start := State(seq(256, i => i), 0);
    SortedHasNoInversions(start.list);
    ScheduleParity(start, 256, key);
  }

  /** The script's main program: the list it ends with holds 0 to 255, rearranged as the real swaps say. */
  method DecodeScript() returns (list: seq<int>)
    ensures var start := State(seq(256, i => i), 0);
            && list == Run(start, 256, FindSecretCode).list
            && multiset(list) == multiset(start.list)
            && Inversions(list) % 2 == RealSwaps(start, 256, FindSecretCode) % 2
  {
    var memory := new MemoryList();
    memory.InitializeMemory();
    assert memory.list == seq(256, i => i);
    memory.SecondForLoop(FindSecretCode);
    list := memory.list;
    RunRearranges(State(seq(256, i => i), 0), 256, FindSecretCode);
    ProgramParity(FindSecretCode);
  }
}
