/** Roll numbers: `sanitize_roll` and the allocation rule of `get_next_roll`. */
module Rolls {
  import opened Text
  import opened Seqs
  import opened Dicts
  import opened Records

  /** A character `sanitize_roll` keeps. */
  predicate IsRollChar(c: char) {
    IsAlnum(c) || c == '-' || c == '_'
  }

  /** `sanitize_roll`: keeps the alphanumeric characters, '-' and '_', then strips. */
  function SanitizeRoll(roll: string): (r: string)
    ensures forall i :: 0 <= i < |r| ==> IsRollChar(r[i])
  {
    var kept := Filter(roll, IsRollChar);
    Strip(kept)
  }

  /** No whitespace survives the filter, so the final `strip()` changes nothing. */
  lemma SanitizeIsFilter(roll: string)
    ensures SanitizeRoll(roll) == Filter(roll, IsRollChar)
  {
    var kept := Filter(roll, IsRollChar);
    forall k | 0 <= k < |kept| ensures !IsSpace(kept[k]) {
      RollCharIsNotSpace(kept[k]);
    }
  }

  lemma RollCharIsNotSpace(c: char)
    requires IsRollChar(c)
    ensures !IsSpace(c)
  {
    assert 0x2d <= c as int <= 0x7a;
  }

  /** The sanitised roll is the input with exactly its unsafe characters
      deleted: it keeps the order, every occurrence of a roll character and no
      other character. */
  lemma SanitizeKeepsRollChars(roll: string, c: char)
    ensures IsSubsequence(SanitizeRoll(roll), roll)
    ensures multiset(SanitizeRoll(roll))[c] == if IsRollChar(c) then multiset(roll)[c] else 0
  {
    SanitizeIsFilter(roll);
    FilterIsSubsequence(roll, IsRollChar);
    FilterCounts(roll, IsRollChar, c);
  }

  /** Sanitising twice is sanitising once. */
  lemma SanitizeIdempotent(roll: string)
    ensures SanitizeRoll(SanitizeRoll(roll)) == SanitizeRoll(roll)
  {
    var r := SanitizeRoll(roll);
    SanitizeIsFilter(r);
    FilterDropsNothing(r, IsRollChar);
  }

  /** `int(roll)` for every roll, in order, that passes `roll.isdigit()`. */
  function NumericRolls(students: seq<Student>): seq<nat>
    decreases |students|
  {
    if students == [] then []
    else
      var last := students[|students| - 1];
      NumericRolls(students[..|students| - 1]) +
        (if IsDigitString(last.roll) then [Value(last.roll)] else [])
  }

  /** Python's `max` of a non-empty list. */
  function MaxOf(xs: seq<nat>): (m: nat)
    requires xs != []
    ensures m in xs
    ensures forall i :: 0 <= i < |xs| ==> xs[i] <= m
    decreases |xs|
  {
    if |xs| == 1 then xs[0]
    else
      var m := MaxOf(xs[..|xs| - 1]);
      assert forall i :: 0 <= i < |xs| - 1 ==> xs[..|xs| - 1][i] == xs[i];
      if xs[|xs| - 1] > m then xs[|xs| - 1] else m
  }

  /** `get_next_roll` on the students as loaded: "001" when there is no
      all-digit roll, and otherwise the largest one plus one, zero-padded to
      three digits. */
  function NextRollOf(students: Dict<Student>): (r: string)
    requires students.Valid()
    ensures IsDigitString(r) && |r| >= 3
  {
    if students.IsEmpty() then "001"
    else
      var numbers := NumericRolls(students.Values());
      if numbers == [] then "001" else Format03(MaxOf(numbers) + 1)
  }

  /** A roll value appears among the numeric rolls exactly when some student's
      roll is all digits with that value. */
  lemma {:induction false} NumericRollsMembers(students: seq<Student>, n: nat)
    ensures n in NumericRolls(students) <==>
      exists i :: 0 <= i < |students| && IsDigitString(students[i].roll) && Value(students[i].roll) == n
    decreases |students|
  {
    if students != [] {
      var init := students[..|students| - 1];
      NumericRollsMembers(init, n);
      assert forall i :: 0 <= i < |init| ==> init[i] == students[i];
      if exists i :: 0 <= i < |students| && IsDigitString(students[i].roll) && Value(students[i].roll) == n {
        var i :| 0 <= i < |students| && IsDigitString(students[i].roll) && Value(students[i].roll) == n;
        if i < |init| {
          assert IsDigitString(init[i].roll) && Value(init[i].roll) == n;
        }
      }
    }
  }

  /** The allocated roll is an all-digit string of at least three characters
      whose value exceeds that of every all-digit roll on file; its value is
      one more than such a roll's, or 1 when there is none, in which case the
      roll is "001". */
  lemma NextRollAboveAll(students: Dict<Student>)
    requires students.Valid()
    ensures var r := NextRollOf(students);
      && IsDigitString(r) && |r| >= 3
      && (forall k :: k in students.entries && IsDigitString(students.entries[k].roll) ==>
            Value(students.entries[k].roll) < Value(r))
      && (Value(r) == 1 || (exists k :: k in students.entries && IsDigitString(students.entries[k].roll) &&
                                         Value(students.entries[k].roll) + 1 == Value(r)))
      && ((forall k :: k in students.entries ==> !IsDigitString(students.entries[k].roll)) ==> r == "001")
  {
    var r := NextRollOf(students);
    var vs := students.Values();
    assert Value("001") == 1 by {
      assert "001"[..2] == "00" && "00"[..1] == "0" && "0"[..0] == "";
    }
    if !students.IsEmpty() {
      var numbers := NumericRolls(vs);
      forall k | k in students.entries && IsDigitString(students.entries[k].roll)
        ensures Value(students.entries[k].roll) in numbers
      {
        var i :| 0 <= i < |students.keys| && students.keys[i] == k;
        NumericRollsMembers(vs, Value(students.entries[k].roll));
        assert vs[i] == students.entries[k];
      }
      if numbers != [] {
        var m := MaxOf(numbers);
        NumericRollsMembers(vs, m);
        var i :| 0 <= i < |vs| && IsDigitString(vs[i].roll) && Value(vs[i].roll) == m;
        assert students.keys[i] in students.entries;
      }
    }
  }

  /** When every student is filed under its own roll, the allocated roll is
      not a key yet, so enrolment never overwrites a student. */
  lemma NextRollIsFresh(students: Dict<Student>)
    requires students.Valid()
    requires forall k :: k in students.entries ==> students.entries[k].roll == k
    ensures NextRollOf(students) !in students.entries
  {
    NextRollAboveAll(students);
  }

  /** The allocator looks only at the students currently on file: when the
      student enrolled last is deleted with no other enrolment or deletion in
      between, its roll is the next one issued. */
  lemma DeletedRollIsReissued(students: Dict<Student>, s: Student)
    requires students.Valid()
    requires forall k :: k in students.entries ==> students.entries[k].roll == k
    requires s.roll == NextRollOf(students)
    ensures NextRollOf(students.Put(s.roll, s).Remove(s.roll)) == s.roll
  {
    NextRollIsFresh(students);
    PutThenRemove(students, s.roll, s);
  }

  /** With `v` at least every all-digit roll value on file and some roll
      holding it, the next roll's value is `v + 1`. */
  lemma NextAfterTop(students: Dict<Student>, v: int)
    requires students.Valid()
    requires exists k :: k in students.entries && IsDigitString(students.entries[k].roll) &&
                         Value(students.entries[k].roll) == v
    requires forall k :: k in students.entries && IsDigitString(students.entries[k].roll) ==>
               Value(students.entries[k].roll) <= v
    ensures Value(NextRollOf(students)) == v + 1
  {
    NextRollAboveAll(students);
  }

  /** With every all-digit roll value on file below `v` (and `v >= 1`), the
      next roll's value is at most `v`, and equal to it when some roll has
      value `v - 1`. */
  lemma NextBelowBound(students: Dict<Student>, v: int)
    requires students.Valid() && v >= 1
    requires forall k :: k in students.entries && IsDigitString(students.entries[k].roll) ==>
               Value(students.entries[k].roll) < v
    ensures Value(NextRollOf(students)) <= v
    ensures (exists k :: k in students.entries && IsDigitString(students.entries[k].roll) &&
                         Value(students.entries[k].roll) + 1 == v) ==>
              Value(NextRollOf(students)) == v
  {
    NextRollAboveAll(students);
  }

  /** `rest` is `students` without `roll`, whose value is above every other
      all-digit roll on file. */
  lemma NextAfterRemoval(students: Dict<Student>, rest: Dict<Student>, roll: string)
    requires rest.Valid() && rest.entries == students.entries - {roll}
    requires IsDigitString(roll) && Value(roll) >= 1
    requires forall k :: k in students.entries && k != roll && IsDigitString(students.entries[k].roll) ==>
               Value(students.entries[k].roll) < Value(roll)
    ensures Value(NextRollOf(rest)) <= Value(roll)
    ensures (exists k :: k in students.entries && k != roll && IsDigitString(students.entries[k].roll) &&
                         Value(students.entries[k].roll) + 1 == Value(roll)) ==>
              Value(NextRollOf(rest)) == Value(roll)
  {
    NextBelowBound(rest, Value(roll));
    if exists k :: k in students.entries && k != roll && IsDigitString(students.entries[k].roll) &&
                   Value(students.entries[k].roll) + 1 == Value(roll) {
      var k :| k in students.entries && k != roll && IsDigitString(students.entries[k].roll) &&
               Value(students.entries[k].roll) + 1 == Value(roll);
      assert k in rest.entries;
    }
  }

  /** Deleting the student holding the highest all-digit roll: before the
      deletion the next roll's value is one above the deleted roll's; after
      it the next roll's value is at most the deleted roll's, and equal to it
      when the highest remaining all-digit roll is one below. */
  lemma DeletingTopRoll(students: Dict<Student>, roll: string)
    requires students.Valid()
    requires roll in students.entries && students.entries[roll].roll == roll
    requires IsDigitString(roll) && Value(roll) >= 1
    requires forall k :: k in students.entries && k != roll && IsDigitString(students.entries[k].roll) ==>
               Value(students.entries[k].roll) < Value(roll)
    ensures Value(NextRollOf(students)) == Value(roll) + 1
    ensures Value(NextRollOf(students.Remove(roll))) <= Value(roll)
    ensures (exists k :: k in students.entries && k != roll && IsDigitString(students.entries[k].roll) &&
                         Value(students.entries[k].roll) + 1 == Value(roll)) ==>
              Value(NextRollOf(students.Remove(roll))) == Value(roll)
  {
    NextAfterTop(students, Value(roll));
    var rest := students.Remove(roll);
    assert rest.entries == students.entries - {roll};
    NextAfterRemoval(students, rest, roll);
  }
}
