/** Digit grouping: where a locale puts its thousands separators. */
module Grouping {
  import opened MachineInts

  const CHAR_MAX: int := 127

  /** A position in the grouping string and the number of digits passed so far. */
  datatype State = State(group: nat, pos: int)

  /** A locale's separator, if it has one, and its group sizes from the right. */
  datatype Locale = Locale(separator: char, grouping: seq<int>)
  {
    predicate HasSeparator()
    {
      separator != '\0'
    }

    /** The last group is repeated, so a separator needs at least one group. */
    predicate Valid()
    {
      (HasSeparator() ==> grouping != []) && forall i :: 0 <= i < |grouping| ==> -128 <= grouping[i] <= CHAR_MAX
    }

    /** A size that ends the grouping. */
    predicate Stop(size: int)
    {
      size <= 0 || size == CHAR_MAX
    }

    predicate Reached(state: State)
    {
      && state.group <= |grouping| && state.pos >= 0
      && forall i :: 0 <= i < state.group ==> !Stop(grouping[i])
    }

    /** next: the position of the next separator, or INT_MAX, and the new state. */
    function Next(state: State): (r: (int, State))
      requires Valid() && Reached(state)
      ensures Reached(r.1)
      ensures r.0 == INT_MAX || state.pos < r.0 == r.1.pos <= state.pos + CHAR_MAX
    {
      if !HasSeparator() then (INT_MAX, state)
      else if state.group == |grouping| then
        var pos := state.pos + grouping[|grouping| - 1];
        (pos, state.(pos := pos))
      else if Stop(grouping[state.group]) then (INT_MAX, state)
      else
        var pos := state.pos + grouping[state.group];
        (pos, State(state.group + 1, pos))
    }

    /** The separator positions below n from a state on. */
    function Separators(state: State, n: int): (positions: seq<int>)
      requires Valid() && Reached(state) && n <= INT_MAX - CHAR_MAX
      ensures forall i :: 0 <= i < |positions| ==> state.pos < positions[i] < n
      ensures forall i, j :: 0 <= i < j < |positions| ==> positions[i] < positions[j]
      decreases n - state.pos
    {
      var (pos, after) := Next(state);
      if pos >= n then [] else [pos] + Separators(after, n)
    }

    /** count_separators. */
    method CountSeparators(numDigits: int) returns (count: nat)
      requires Valid() && numDigits <= INT_MAX - CHAR_MAX
      ensures count == |Separators(State(0, 0), numDigits)|
    {
      count := 0;
      var (pos, state) := Next(State(0, 0));
      ghost var before := State(0, 0);
      while numDigits > pos
        invariant Reached(before) && (pos, state) == Next(before)
        invariant count + |Separators(before, numDigits)| == |Separators(State(0, 0), numDigits)|
        decreases numDigits - pos
      {
        count := count + 1;
        before := state;
        var (nextPos, nextState) := Next(state);
        pos, state := nextPos, nextState;
      }
    }

    /** The digits from i on with the k separators that are still to come. */
    function Grouped(digits: string, positions: seq<int>, i: nat, k: nat): string
      requires i <= |digits| && k <= |positions|
      decreases |digits| - i
    {
      if i == |digits| then ""
      else if k > 0 && |digits| - i == positions[k - 1] then
        [separator, digits[i]] + Grouped(digits, positions, i + 1, k - 1)
      else
        [digits[i]] + Grouped(digits, positions, i + 1, k)
    }

    /** The first loop of apply: the positions, behind a zero. */
    method CollectSeparators(numDigits: int) returns (separators: seq<int>)
      requires Valid() && numDigits <= INT_MAX - CHAR_MAX
      ensures separators == [0] + Separators(State(0, 0), numDigits)
    {
      separators := [0];
      var state := State(0, 0);
      while true
        invariant Reached(state)
        invariant separators + Separators(state, numDigits) == [0] + Separators(State(0, 0), numDigits)
        decreases numDigits - state.pos
      {
        var (i, after) := Next(state);
        if i == 0 || i >= numDigits {
          break;
        }
        ghost var rest := Separators(after, numDigits);
        assert separators + ([i] + rest) == (separators + [i]) + rest;
        separators := separators + [i];
        state := after;
      }
    }

    /** apply: the digits with a separator before each position. */
    method Apply(digits: string) returns (out: string)
      requires Valid() && |digits| <= INT_MAX - CHAR_MAX
      ensures var positions := Separators(State(0, 0), |digits|);
              out == Grouped(digits, positions, 0, |positions|)
    {
      var numDigits := |digits|;
      var separators := CollectSeparators(numDigits);
      ghost var positions := Separators(State(0, 0), numDigits);
      out := "";
      var sepIndex: nat := |separators| - 1;
      assert separators[1..] == positions;
      hide *;
      for i := 0 to numDigits
        invariant sepIndex <= |positions|
        invariant out + Grouped(digits, positions, i, sepIndex) == Grouped(digits, positions, 0, |positions|)
      {
        GroupedStep(out, digits, positions, i, sepIndex);
        if numDigits - i == separators[sepIndex] {
          out := out + [separator];
          sepIndex := sepIndex - 1;
        }
        out := out + [digits[i]];
      }
      GroupedEnd(out, digits, positions, sepIndex);
    }

    lemma GroupedStep(out: string, digits: string, positions: seq<int>, i: nat, k: nat)
      requires i < |digits| && k <= |positions|
      ensures out + Grouped(digits, positions, i, k) ==
              if k > 0 && |digits| - i == positions[k - 1] then
                out + [separator] + [digits[i]] + Grouped(digits, positions, i + 1, k - 1)
              else
                out + [digits[i]] + Grouped(digits, positions, i + 1, k)
    {
      if k > 0 && |digits| - i == positions[k - 1] {
        assert [separator, digits[i]] == [separator] + [digits[i]];
      }
    }

    lemma GroupedEnd(out: string, digits: string, positions: seq<int>, k: nat)
      requires k <= |positions|
      ensures out + Grouped(digits, positions, |digits|, k) == out
    {
    }

    // ---------- Where the separators are ----------

    /** The size of the j-th group from the right: past the end the last one repeats. */
    function Size(j: nat): int
      requires grouping != []
    {
      if j < |grouping| then grouping[j] else grouping[|grouping| - 1]
    }

    /** The digits in the j rightmost groups. */
    function Offset(j: nat): int
      requires grouping != []
    {
      if j == 0 then 0 else Offset(j - 1) + Size(j - 1)
    }

    /** No stop value among the first j groups. */
    predicate Open(j: nat)
      requires grouping != []
    {
      forall i :: 0 <= i < j ==> !Stop(Size(i))
    }

    /** The positions from a state that has passed j groups are the offsets of the further
        groups, up to the last one below n or to the stop value. */
    lemma {:induction false} SeparatorsAreOffsets(state: State, j: nat, n: int)
      requires Valid() && Reached(state) && n <= INT_MAX - CHAR_MAX && HasSeparator()
      requires state.pos == Offset(j) && Open(j) && state.group == if j < |grouping| then j else |grouping|
      ensures var ps := Separators(state, n);
              && (forall i :: 0 <= i < |ps| ==> ps[i] == Offset(j + 1 + i))
              && Open(j + |ps|)
              && (Open(j + |ps| + 1) ==> Offset(j + |ps| + 1) >= n)
      decreases n - state.pos
    {
      var (pos, after) := Next(state);
      var ps := Separators(state, n);
      if !Stop(Size(j)) {
        assert pos == Offset(j + 1);
        if pos < n {
          var rest := Separators(after, n);
          SeparatorsAreOffsets(after, j + 1, n);
          assert ps == [pos] + rest && j + 1 + |rest| == j + |ps|;
          hide *;
          forall i | 0 <= i < |ps| ensures ps[i] == Offset(j + 1 + i) {
            if i > 0 {
              assert ps[i] == rest[i - 1] == Offset(j + 1 + 1 + (i - 1));
            }
          }
        }
      } else {
        assert ps == [];
        assert !Open(j + 1);
      }
    }

    /** Grouping adds exactly the separators, each at its place counted from the right. */
    lemma {:induction false} GroupedPlaces(digits: string, positions: seq<int>, i: nat, k: nat)
      requires i <= |digits| && k <= |positions|
      requires forall j :: 0 <= j < k ==> 0 < positions[j] <= |digits| - i
      requires forall a, b :: 0 <= a < b < k ==> positions[a] < positions[b]
      ensures var out := Grouped(digits, positions, i, k);
              && |out| == |digits| - i + k
              && forall j :: 0 <= j < k ==> positions[j] + j + 1 <= |out| && out[|out| - positions[j] - j - 1] == separator
      decreases |digits| - i
    {
      assert k > 0 ==> positions[k - 1] > 0;
      if i < |digits| {
        var matches := k > 0 && |digits| - i == positions[k - 1];
        GroupedPlaces(digits, positions, i + 1, if matches then k - 1 else k);
      }
    }

    /** Taking the separators out again. */
    function Stripped(s: string): string
    {
      if s == "" then "" else (if s[0] == separator then "" else [s[0]]) + Stripped(s[1..])
    }

    lemma {:induction false} StrippedGrouped(digits: string, positions: seq<int>, i: nat, k: nat)
      requires i <= |digits| && k <= |positions| && separator !in digits
      ensures Stripped(Grouped(digits, positions, i, k)) == digits[i..]
      decreases |digits| - i
    {
      if i < |digits| {
        var out := Grouped(digits, positions, i, k);
        assert digits[i] in digits;
        if k > 0 && |digits| - i == positions[k - 1] {
          StrippedGrouped(digits, positions, i + 1, k - 1);
          assert out[1..] == [digits[i]] + Grouped(digits, positions, i + 1, k - 1);
          assert out[1..][1..] == Grouped(digits, positions, i + 1, k - 1);
        } else {
          StrippedGrouped(digits, positions, i + 1, k);
          assert out[1..] == Grouped(digits, positions, i + 1, k);
        }
      }
    }

    /** The grouped text: what apply writes. */
    function Text(digits: string): string
      requires Valid() && |digits| <= INT_MAX - CHAR_MAX
    {
      var positions := Separators(State(0, 0), |digits|);
      Grouped(digits, positions, 0, |positions|)
    }

    /** The length count_separators announces, with the digits unchanged and in front. */
    lemma DigitsKept(digits: string)
      requires Valid() && |digits| <= INT_MAX - CHAR_MAX && separator !in digits
      ensures |Text(digits)| == |digits| + |Separators(State(0, 0), |digits|)|
      ensures Stripped(Text(digits)) == digits
      ensures digits != "" ==> Text(digits)[0] == digits[0]
      ensures !HasSeparator() ==> Text(digits) == digits
    {
      var positions := Separators(State(0, 0), |digits|);
      var count := |positions|;
      GroupedPlaces(digits, positions, 0, count);
      StrippedGrouped(digits, positions, 0, count);
      if !HasSeparator() {
        Ungrouped(digits, 0);
      }
      assert count > 0 ==> positions[count - 1] < |digits|;
    }

    /** The j-th separator from the right has exactly the digits of the j rightmost groups
        after it; there is one for every such group boundary inside the number. */
    lemma SeparatorsPlaced(digits: string)
      requires Valid() && |digits| <= INT_MAX - CHAR_MAX && HasSeparator()
      ensures var count := |Separators(State(0, 0), |digits|)|;
              && (forall j :: 1 <= j <= count ==> Placed(digits, j))
              && Open(count) && (Open(count + 1) ==> Offset(count + 1) >= |digits|)
    {
      var count := |Separators(State(0, 0), |digits|)|;
      SeparatorsAreOffsets(State(0, 0), 0, |digits|);
      hide Separators, Placed, Open, Reached, Next, Size, Offset;
      forall j | 1 <= j <= count ensures Placed(digits, j) {
        OnePlaced(digits, j);
      }
    }

    lemma OnePlaced(digits: string, j: nat)
      requires Valid() && |digits| <= INT_MAX - CHAR_MAX && HasSeparator()
      requires 1 <= j <= |Separators(State(0, 0), |digits|)|
      ensures Placed(digits, j)
    {
      hide Separators, Grouped, Next, Size;
      var positions := Separators(State(0, 0), |digits|);
      SeparatorsAreOffsets(State(0, 0), 0, |digits|);
      hide Open, Reached, Offset;
      assert positions[j - 1] == Offset(0 + 1 + (j - 1));
      GroupedPlaces(digits, positions, 0, |positions|);
    }

    // ---------- Which separators there are, in numbers ----------

    /** The boundary of the j-th group is inside the number; the first limit groups count. */
    ghost predicate Boundary(j: int, limit: int, n: int)
      requires grouping != []
    {
      1 <= j <= limit && Offset(j) < n
    }

    /** The character at m of the grouped text is a separator. */
    ghost predicate SeparatorAt(digits: string, m: int)
      requires Valid() && |digits| <= INT_MAX - CHAR_MAX
    {
      0 <= m < |Text(digits)| && Text(digits)[m] == separator
    }

    /** The separators are exactly the boundaries of the first limit groups: they are that
        many, and each stands before the digits of the groups behind it. */
    ghost predicate ExactlyAt(digits: string, limit: int)
      requires Valid() && |digits| <= INT_MAX - CHAR_MAX && HasSeparator()
    {
      && (forall j :: Boundary(j, limit, |digits|) <==> 1 <= j <= |Separators(State(0, 0), |digits|)|)
      && (forall j :: Boundary(j, limit, |digits|) ==> SeparatorAt(digits, |Text(digits)| - Offset(j) - j))
      && (forall m :: SeparatorAt(digits, m) ==>
            exists j :: Boundary(j, limit, |digits|) && m == |Text(digits)| - Offset(j) - j)
    }

    /** With sizes from 1 to 126 only, every group boundary inside the number has one. */
    lemma SeparatedEverywhere(digits: string)
      requires Valid() && |digits| <= INT_MAX - CHAR_MAX && HasSeparator() && separator !in digits
      requires forall i :: 0 <= i < |grouping| ==> 1 <= grouping[i] <= 126
      ensures ExactlyAt(digits, |digits|)
    {
      var count := |Separators(State(0, 0), |digits|)|;
      SeparatorsAreOffsets(State(0, 0), 0, |digits|);
      assert Open(count + 1);
      forall j ensures Boundary(j, |digits|, |digits|) <==> 1 <= j <= count {
        if j >= 1 {
          OffsetGrows(j);
          if j <= count {
            assert Separators(State(0, 0), |digits|)[j - 1] == Offset(0 + 1 + (j - 1));
          } else {
            OffsetMonotone(count + 1, j);
          }
        }
      }
      BoundariesPlaced(digits, |digits|);
    }

    /** A size of 0 or less, or 127, after g others from 1 to 126 ends the grouping there. */
    lemma SeparatedUpTo(digits: string, g: nat)
      requires Valid() && |digits| <= INT_MAX - CHAR_MAX && HasSeparator() && separator !in digits
      requires g < |grouping| && (forall i :: 0 <= i < g ==> 1 <= grouping[i] <= 126)
      requires grouping[g] <= 0 || grouping[g] == 127
      ensures ExactlyAt(digits, g)
    {
      var count := |Separators(State(0, 0), |digits|)|;
      SeparatorsAreOffsets(State(0, 0), 0, |digits|);
      assert Stop(Size(g)) && Open(g);
      assert count <= g;
      forall j ensures Boundary(j, g, |digits|) <==> 1 <= j <= count {
        if 1 <= j <= g {
          if j <= count {
            assert Separators(State(0, 0), |digits|)[j - 1] == Offset(0 + 1 + (j - 1));
          } else {
            assert Open(count + 1);
            OffsetMonotoneTo(count + 1, j, g);
          }
        }
      }
      BoundariesPlaced(digits, g);
    }

    lemma {:induction false} OffsetGrows(j: nat)
      requires grouping != [] && forall i :: 0 <= i < |grouping| ==> 1 <= grouping[i] <= 126
      ensures Offset(j) >= j
    {
      if j > 0 {
        OffsetGrows(j - 1);
      }
    }

    lemma {:induction false} OffsetMonotone(a: nat, b: nat)
      requires grouping != [] && a <= b && forall i :: 0 <= i < |grouping| ==> 1 <= grouping[i] <= 126
      ensures Offset(a) <= Offset(b)
    {
      if a < b {
        OffsetMonotone(a, b - 1);
      }
    }

    lemma {:induction false} OffsetMonotoneTo(a: nat, b: nat, g: nat)
      requires grouping != [] && a <= b <= g <= |grouping| && forall i :: 0 <= i < g ==> 1 <= grouping[i] <= 126
      ensures Offset(a) <= Offset(b)
      decreases b
    {
      if a < b {
        OffsetMonotoneTo(a, b - 1, g);
      }
    }

    lemma BoundariesPlaced(digits: string, limit: int)
      requires Valid() && |digits| <= INT_MAX - CHAR_MAX && HasSeparator() && separator !in digits
      requires forall j :: Boundary(j, limit, |digits|) <==> 1 <= j <= |Separators(State(0, 0), |digits|)|
      ensures ExactlyAt(digits, limit)
    {
      hide Separators, Text, Open, Reached, Next, Size, Offset, Boundary, SeparatorAt;
      forall j | Boundary(j, limit, |digits|) ensures SeparatorAt(digits, |Text(digits)| - Offset(j) - j) {
        BoundaryPlaced(digits, j);
      }
      forall m | SeparatorAt(digits, m)
        ensures exists j :: Boundary(j, limit, |digits|) && m == |Text(digits)| - Offset(j) - j
      {
        var j := PlacedAtBoundary(digits, m);
        assert Boundary(j, limit, |digits|);
      }
    }

    lemma BoundaryPlaced(digits: string, j: int)
      requires Valid() && |digits| <= INT_MAX - CHAR_MAX && HasSeparator()
      requires 1 <= j <= |Separators(State(0, 0), |digits|)|
      ensures SeparatorAt(digits, |Text(digits)| - Offset(j) - j)
    {
      hide Separators, Text, Open, Reached, Next, Size, Offset;
      SeparatorsPlaced(digits);
      assert Placed(digits, j);
    }

    lemma PlacedAtBoundary(digits: string, m: int) returns (j: int)
      requires Valid() && |digits| <= INT_MAX - CHAR_MAX && HasSeparator() && separator !in digits
      requires SeparatorAt(digits, m)
      ensures 1 <= j <= |Separators(State(0, 0), |digits|)| && m == |Text(digits)| - Offset(j) - j
    {
      hide Separators, Grouped, Open, Next, Size, Offset;
      var positions := Separators(State(0, 0), |digits|);
      GroupedOnly(digits, positions, 0, |positions|);
      var i :| 0 <= i < |positions| && m == |Text(digits)| - positions[i] - i - 1;
      j := i + 1;
      OffsetPosition(digits, i);
    }

    lemma OffsetPosition(digits: string, i: nat)
      requires Valid() && |digits| <= INT_MAX - CHAR_MAX && HasSeparator()
      requires i < |Separators(State(0, 0), |digits|)|
      ensures Separators(State(0, 0), |digits|)[i] == Offset(i + 1)
    {
      SeparatorsAreOffsets(State(0, 0), 0, |digits|);
      var positions := Separators(State(0, 0), |digits|);
      hide Separators, Open, Reached, Next, Size, Offset;
      assert positions[i] == Offset(0 + 1 + i);
    }

    /** The digits bring no separator of their own. */
    lemma {:induction false} GroupedOnly(digits: string, positions: seq<int>, i: nat, k: nat)
      requires i <= |digits| && k <= |positions| && separator !in digits
      requires forall j :: 0 <= j < k ==> 0 < positions[j] <= |digits| - i
      requires forall a, b :: 0 <= a < b < k ==> positions[a] < positions[b]
      ensures var out := Grouped(digits, positions, i, k);
              && |out| == |digits| - i + k
              && forall m :: 0 <= m < |out| && out[m] == separator ==>
                    exists j :: 0 <= j < k && m == |out| - positions[j] - j - 1
      decreases |digits| - i
    {
      assert k > 0 ==> positions[k - 1] > 0;
      if i < |digits| {
        assert digits[i] in digits;
        var out := Grouped(digits, positions, i, k);
        var matches := k > 0 && |digits| - i == positions[k - 1];
        var rest := if matches then k - 1 else k;
        GroupedOnly(digits, positions, i + 1, rest);
        var tail := Grouped(digits, positions, i + 1, rest);
        forall m | 0 <= m < |out| && out[m] == separator
          ensures exists j :: 0 <= j < k && m == |out| - positions[j] - j - 1
        {
          if matches && m == 0 {
            assert m == |out| - positions[k - 1] - (k - 1) - 1;
          } else {
            var n := m - (|out| - |tail|);
            assert tail[n] == separator;
            var j :| 0 <= j < rest && n == |tail| - positions[j] - j - 1;
            assert m == |out| - positions[j] - j - 1;
          }
        }
      }
    }

    predicate Placed(digits: string, j: nat)
      requires Valid() && |digits| <= INT_MAX - CHAR_MAX && HasSeparator()
    {
      var out := Text(digits);
      0 < Offset(j) < |digits| && Offset(j) + j <= |out| && out[|out| - Offset(j) - j] == separator
    }

    lemma {:induction false} Ungrouped(digits: string, i: nat)
      requires i <= |digits|
      ensures Grouped(digits, [], i, 0) == digits[i..]
      decreases |digits| - i
    {
      if i < |digits| {
        Ungrouped(digits, i + 1);
      }
    }
  }
}
