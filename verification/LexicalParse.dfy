/** The parser of unsigned numbers: plain and grouped texts, and exactly which are read right. */
module LexicalParse {
  import opened Remainders
  import opened LexicalCast

  datatype Option<T> = None | Some(value: T)

  /** One digit more, with the overflow checks, in the parser's own arithmetic. */
  function DigitStep(w: Width, value: nat, multiplier: nat, c: char): (r: Option<(nat, nat)>)
    requires w.values > 0 && w.arithmetic > 0
    ensures r.Some? ==> IsDigit(c) && r.value.0 < w.values
  {
    var newSubValue := multiplier * 10 * DigitOf(c) % w.arithmetic % w.values;
    if !IsDigit(c)
      || newSubValue / 10 != multiplier * DigitOf(c) % w.arithmetic
      || w.values - 1 - newSubValue < value
    then None
    else Some((value + newSubValue, multiplier * 10 % w.values))
  }

  // ---------- the checks neither misfire nor miss ----------

  /** What the two checks come to: the product, reduced to the arithmetic's width, times ten and
  added, must fit. Only that reduction can let a digit pass that makes the number too large. */
  lemma PassesIfItFits(w: Width, value: nat, multiplier: nat, c: char)
    requires w.Valid() && value < w.values && multiplier < w.values
    ensures var r := DigitStep(w, value, multiplier, c);
      if IsDigit(c) then
        var product := multiplier * (c as int - '0' as int) % w.arithmetic;
        && (r.Some? <==> value + 10 * product < w.values)
        && (r.Some? ==> r.value == (value + 10 * product, multiplier * 10 % w.values))
      else r.None?
  {
    if IsDigit(c) {
      var d, v := DigitOf(c), w.values;
      var y := multiplier * d % w.arithmetic;
      AtMostNine(d, multiplier);
      assert multiplier * d == d * multiplier && multiplier * 10 * d == 10 * (multiplier * d);
      TimesTen(multiplier * d, w.arithmetic);
      if w.arithmetic == v {
        SmallMod(10 * y % v, v);
      } else {
        SmallMod(multiplier * d, w.arithmetic);
        SmallMod(10 * y, w.arithmetic);
      }
      if 10 * y < v {
        SmallMod(10 * y, v);
      }
    }
  }

  lemma SmallMod(x: nat, m: nat)
    requires x < m
    ensures x % m == x
  {
  }

  /** While the multiplier is a true power of ten, the checks reject exactly the values that
  do not fit. */
  lemma DigitStepIsExact(w: Width, k: nat, value: nat, c: char)
    requires w.Valid() && 1 <= k <= w.digits10 && value < w.values && IsDigit(c)
    ensures Pow10(k - 1) < w.values
    ensures var r := DigitStep(w, value, Pow10(k - 1), c);
      var sum := value + DigitOf(c) * Pow10(k);
      && (r.Some? <==> sum < w.values)
      && (r.Some? ==> r.value == (sum, Pow10(k)))
  {
    Pow10Grows(k, w.digits10);
    var p, d := Pow10(k - 1), DigitOf(c);
    var x := p * d;
    Products(p, d, w.values);
    assert Pow10(k) == 10 * p;
    SmallMod(x, w.arithmetic);
    SmallMod(10 * p, w.values);
    ReducedOrNot(w, x);
  }

  lemma Products(p: nat, d: nat, values: nat)
    requires 10 * p < values && d <= 9
    ensures 0 <= p * d < values && 10 * (p * d) < 9 * values
    ensures p * 10 * d == 10 * (p * d) == d * (10 * p)
  {
    AtMostNine(d, p);
    assert p * d == d * p;
    assert d * (10 * p) == 10 * (d * p);
  }

  lemma {:induction false} Pow10Grows(j: nat, k: nat)
    requires j <= k
    ensures Pow10(j) <= Pow10(k)
  {
    if j < k {
      Pow10Grows(j, k - 1);
    }
  }

  lemma ReducedOrNot(w: Width, x: nat)
    requires w.Valid() && x < w.values && 10 * x < 9 * w.values
    ensures var y := 10 * x % w.arithmetic % w.values;
      if 10 * x < w.values then y == 10 * x else y / 10 != x
  {
    if 10 * x < w.arithmetic {
      SmallMod(10 * x, w.arithmetic);
    }
    if 10 * x < w.values {
      SmallMod(10 * x, w.values);
    }
  }

  lemma ValueOfFront(c: char, s: string)
    ensures Value([c] + s) == DigitOf(c) * Pow10(|s|) + Value(s)
  {
    assert ([c] + s)[1..] == s;
  }

  // ---------- the plain loop ----------

  /** What has been read so far: `tail` are the digits, and there are few enough of them. */
  ghost predicate Reading(w: Width, tail: string, value: nat, multiplier: nat) {
    && tail != "" && AllDigits(tail) && |tail| <= w.digits10 + 1
    && value == Value(tail) < w.values && multiplier == Pow10(|tail| - 1)
  }

  /** One step of either loop over a text with few enough digits. */
  lemma ReadingGoesOn(w: Width, tail: string, value: nat, multiplier: nat, c: char)
    requires w.Valid() && Reading(w, tail, value, multiplier) && |tail| <= w.digits10
    ensures var r := DigitStep(w, value, multiplier, c);
      && (r.Some? <==> IsDigit(c) && Value([c] + tail) < w.values)
      && (r.Some? ==> Reading(w, [c] + tail, r.value.0, r.value.1))
  {
    hide Value, DigitStep;
    ValueOfFront(c, tail);
    if IsDigit(c) {
      DigitStepIsExact(w, |tail|, value, c);
    }
  }

  /** A character that stops the loop is no digit, or the number does not fit. */
  lemma ReadingStops(w: Width, front: string, c: char, read: string, value: nat, multiplier: nat)
    requires w.Valid() && Reading(w, read, value, multiplier) && |read| <= w.digits10
    requires DigitStep(w, value, multiplier, c).None?
    ensures AllDigits(front) && IsDigit(c) ==> Value(front + ([c] + read)) >= w.values
  {
    ReadingGoesOn(w, read, value, multiplier, c);
    if AllDigits(front) && IsDigit(c) {
      ValueOfEnd(front, [c] + read);
    }
  }

  /** What the plain loop makes of `rest`, read from its end: value and multiplier. */
  function Fold(w: Width, rest: string, value: nat, multiplier: nat): Option<(nat, nat)>
    requires w.values > 0 && w.arithmetic > 0
  {
    if rest == "" then Some((value, multiplier))
    else
      match DigitStep(w, value, multiplier, rest[|rest| - 1])
      case None => None
      case Some(next) => Fold(w, rest[..|rest| - 1], next.0, next.1)
  }

  /** Where there are few enough digits the loop is exact: it ends well if and only if the
  rest is digits and the whole number fits. */
  lemma {:induction false} FoldIsExact(w: Width, rest: string, value: nat, multiplier: nat, tail: string)
    requires w.Valid() && Reading(w, tail, value, multiplier) && |rest| + |tail| <= w.digits10 + 1
    ensures var r := Fold(w, rest, value, multiplier);
      && (r.Some? <==> AllDigits(rest) && Value(rest + tail) < w.values)
      && (r.Some? ==> r.value.0 == Value(rest + tail))
    decreases |rest|
  {
    if rest == "" {
      assert rest + tail == tail;
    } else {
      var front, c := rest[..|rest| - 1], rest[|rest| - 1];
      var step := DigitStep(w, value, multiplier, c);
      assert rest + tail == front + ([c] + tail);
      assert AllDigits(rest) <==> AllDigits(front) && IsDigit(c);
      if step.None? {
        ReadingStops(w, front, c, tail, value, multiplier);
      } else {
        ReadingGoesOn(w, tail, value, multiplier, c);
        FoldIsExact(w, front, step.value.0, step.value.1, [c] + tail);
      }
    }
  }

  /** The plain loop. */
  method RetFold(w: Width, rest: string, soFar: nat, multiplierSoFar: nat) returns (ok: bool, value: nat)
    requires w.Valid() && soFar < w.values
    ensures ok ==> AllDigits(rest)
    ensures value < w.values
    ensures var r := Fold(w, rest, soFar, multiplierSoFar); (ok <==> r.Some?) && (ok ==> value == r.value.0)
  {
    var i: nat, multiplier := |rest|, multiplierSoFar;
    value := soFar;
    assert rest[..i] == rest;
    while i > 0
      invariant i <= |rest| && value < w.values
      invariant forall j :: i <= j < |rest| ==> IsDigit(rest[j])
      invariant Fold(w, rest[..i], value, multiplier) == Fold(w, rest, soFar, multiplierSoFar)
    {
      assert rest[..i][..i - 1] == rest[..i - 1];
      var step := DigitStep(w, value, multiplier, rest[i - 1]);
      if step.None? {
        return false, value;
      }
      i, value, multiplier := i - 1, step.value.0, step.value.1;
    }
    ok := true;
  }

  /** The same behind `tail`: exact where there are few enough digits. */
  method RetPlain(w: Width, rest: string, soFar: nat, multiplierSoFar: nat, ghost tail: string)
    returns (ok: bool, value: nat)
    requires w.Valid() && soFar < w.values
    requires |rest| + |tail| <= w.digits10 + 1 ==> Reading(w, tail, soFar, multiplierSoFar)
    ensures ok ==> AllDigits(rest)
    ensures value < w.values
    ensures |rest| + |tail| <= w.digits10 + 1 ==>
      && (ok <==> AllDigits(rest) && Value(rest + tail) < w.values)
      && (ok ==> value == Value(rest + tail))
    ensures var r := Fold(w, rest, soFar, multiplierSoFar); (ok <==> r.Some?) && (ok ==> value == r.value.0)
  {
    if |rest| + |tail| <= w.digits10 + 1 {
      FoldIsExact(w, rest, soFar, multiplierSoFar, tail);
    }
    ok, value := RetFold(w, rest, soFar, multiplierSoFar);
  }

  // ---------- the grouped loop ----------

  /** The group that comes next: past the last entry the last one counts for all that follow, and
  the number of the group is an `unsigned char`. */
  function Next(loc: Locale, current: nat): nat
    requires loc.Local?
  {
    if current < |loc.grouping| - 1 then (current + 1) % 256 else current
  }

  /** How many digits the parser wants in a group: it counts a size down to zero as a `char`,
  which takes a negative one all the way round. */
  function Wanted(size: GroupChar): nat {
    if size < 0 then size + 256 else size
  }

  /** What may stand in front of a group that still wants `need` digits: digits and nothing
  else, which may be fewer, or more as far as the group goes and then without separators; or
  the digits wanted, a separator in front of them, and in front of that the next group. */
  ghost predicate Stands(loc: Locale, front: string, current: nat, need: nat)
    requires loc.Groups()
    decreases |front|
  {
    || AllDigits(front)
    || (|front| > need + 1
      && AllDigits(front[|front| - need..]) && front[|front| - need - 1] == loc.separator
      && var next := Next(loc, current);
        next < |loc.grouping| && Stands(loc, front[..|front| - need - 1], next, Wanted(loc.grouping[next])))
  }

  /** The separators of a text stand where the sizes of the groups put them. */
  ghost predicate GroupsStand(loc: Locale, s: string)
    requires loc.Groups()
  {
    s != "" && Stands(loc, s, 0, loc.grouping[0])
  }

  // ---------- where separators stand, group by group ----------

  /** The entry that counts for the `k`-th group from the right. */
  function EntryOf(size: nat, k: nat): nat
    requires size > 0
    ensures EntryOf(size, k) < size
  {
    if size > 256 then k % 256 else if k < size then k else size - 1
  }

  lemma EntryTurns(size: nat, k: nat)
    requires size > 0
    requires (k + 1) % 256 == if k % 256 + 1 < 256 then k % 256 + 1 else 0
    ensures var entry := EntryOf(size, k);
      EntryOf(size, k + 1) == if entry < size - 1 then (entry + 1) % 256 else entry
  {
  }

  lemma NextEntry(loc: Locale, k: nat)
    requires loc.Groups()
    ensures Next(loc, EntryOf(|loc.grouping|, k)) == EntryOf(|loc.grouping|, k + 1)
  {
    ModAdvance(k, 1, 256);
    EntryTurns(|loc.grouping|, k);
  }

  /** A text taken apart into groups of digits from the right, each but the last one as long as
  its entry wants it; the last one, in front, may be of any length but not empty. */
  ghost predicate ApartInGroups(loc: Locale, s: string, groups: seq<string>, first: nat)
    requires loc.Groups()
  {
    && |groups| > 0 && s == Joined(groups, loc.separator)
    && forall k {:trigger groups[k]} :: 0 <= k < |groups| ==>
      && AllDigits(groups[k])
      && if k < |groups| - 1 then |groups[k]| == Wanted(loc.grouping[EntryOf(|loc.grouping|, first + k)])
         else groups[k] != ""
  }

  lemma {:induction false} StandingIsApart(loc: Locale, s: string, first: nat) returns (groups: seq<string>)
    requires loc.Groups() && s != ""
    requires var entry := EntryOf(|loc.grouping|, first); Stands(loc, s, entry, Wanted(loc.grouping[entry]))
    ensures ApartInGroups(loc, s, groups, first)
    decreases |s|
  {
    var need := Wanted(loc.grouping[EntryOf(|loc.grouping|, first)]);
    if AllDigits(s) {
      groups := [s];
      JoinedOne(s, loc.separator);
    } else {
      NextEntry(loc, first);
      var front, group := s[..|s| - need - 1], s[|s| - need..];
      var more := StandingIsApart(loc, front, first + 1);
      groups := [group] + more;
      OneApart(loc, front, group, more, first);
      assert s == front + [loc.separator] + group;
    }
  }

  lemma OneApart(loc: Locale, front: string, group: string, more: seq<string>, first: nat)
    requires loc.Groups() && ApartInGroups(loc, front, more, first + 1) && AllDigits(group)
    requires |group| == Wanted(loc.grouping[EntryOf(|loc.grouping|, first)])
    ensures ApartInGroups(loc, front + [loc.separator] + group, [group] + more, first)
  {
    var groups := [group] + more;
    JoinedFurther(group, more, loc.separator);
    hide Joined, Wanted, EntryOf, AllDigits;
    forall k | 0 < k < |groups|
      ensures groups[k] == more[k - 1] && first + k == first + 1 + (k - 1)
    {
    }
  }

  lemma {:induction false} ApartStands(loc: Locale, s: string, groups: seq<string>, first: nat)
    requires loc.Groups() && ApartInGroups(loc, s, groups, first)
    ensures s != ""
    ensures var entry := EntryOf(|loc.grouping|, first); Stands(loc, s, entry, Wanted(loc.grouping[entry]))
    decreases |groups|
  {
    if |groups| == 1 {
      assert s == groups[0];
    } else {
      var group, more := groups[0], groups[1..];
      var front := Joined(more, loc.separator);
      MoreApart(loc, groups, first);
      ApartStands(loc, front, more, first + 1);
      NextEntry(loc, first);
      assert s == front + [loc.separator] + group;
      assert s[..|s| - |group| - 1] == front && s[|s| - |group|..] == group;
    }
  }

  lemma MoreApart(loc: Locale, groups: seq<string>, first: nat)
    requires loc.Groups() && |groups| > 1 && ApartInGroups(loc, Joined(groups, loc.separator), groups, first)
    ensures ApartInGroups(loc, Joined(groups[1..], loc.separator), groups[1..], first + 1)
  {
    var more := groups[1..];
    hide Joined, Wanted, EntryOf, AllDigits;
    forall k | 0 <= k < |more|
      ensures more[k] == groups[k + 1] && first + 1 + k == first + (k + 1)
    {
    }
  }

  /** So the parser's test is this: a text stands in groups if and only if it can be taken apart
  into groups of digits with one separator between two of them, each but the last as long as
  its entry says (a negative one counts from 256 down), and the last not empty. */
  lemma GroupsStandApart(loc: Locale, s: string)
    requires loc.Local? && |loc.grouping| > 0 && loc.grouping[0] > 0
    ensures GroupsStand(loc, s) <==> exists groups: seq<string> ::
      && |groups| > 0 && s == Joined(groups, loc.separator)
      && forall k {:trigger groups[k]} :: 0 <= k < |groups| ==>
        && AllDigits(groups[k])
        && var size: int := loc.grouping[if |loc.grouping| > 256 then k % 256
                                         else if k < |loc.grouping| then k else |loc.grouping| - 1];
        if k < |groups| - 1 then |groups[k]| == (if size < 0 then size + 256 else size) else groups[k] != ""
  {
    if GroupsStand(loc, s) {
      var groups := StandingIsApart(loc, s, 0);
      assert |groups| > 0 && s == Joined(groups, loc.separator);
    }
    forall groups: seq<string> | ApartInGroups(loc, s, groups, 0)
      ensures GroupsStand(loc, s)
    {
      ApartStands(loc, s, groups, 0);
    }
    forall groups: seq<string> | |groups| > 0 && s == Joined(groups, loc.separator)
      ensures ApartInGroups(loc, s, groups, 0) <==>
        forall k {:trigger groups[k]} :: 0 <= k < |groups| ==>
        && AllDigits(groups[k])
        && var size: int := loc.grouping[if |loc.grouping| > 256 then k % 256
                                         else if k < |loc.grouping| then k else |loc.grouping| - 1];
        if k < |groups| - 1 then |groups[k]| == (if size < 0 then size + 256 else size) else groups[k] != ""
    {
    }
  }

  // ---------- printed numbers ----------

  lemma {:induction false} LongEnough(groups: seq<string>, k: nat)
    requires k < |groups| && forall i :: 0 <= i < |groups| ==> groups[i] != ""
    ensures |Concatenated(groups)| >= |groups[k]| + |groups| - 1
    decreases |groups|
  {
    var more := groups[1..];
    if k > 0 {
      LongEnough(more, k - 1);
    } else if more != [] {
      LongEnough(more, 0);
    }
  }

  lemma {:induction false} DigitsApart(groups: seq<string>)
    requires AllDigits(Concatenated(groups))
    ensures forall k :: 0 <= k < |groups| ==> AllDigits(groups[k])
    decreases |groups|
  {
    if groups != [] {
      var front, group := Concatenated(groups[1..]), groups[0];
      assert AllDigits(front) by {
        assert forall i :: 0 <= i < |front| ==> front[i] == (front + group)[i];
      }
      assert AllDigits(group) by {
        assert forall i :: 0 <= i < |group| ==> group[i] == (front + group)[|front| + i];
      }
      DigitsApart(groups[1..]);
      forall k | 0 <= k < |groups|
        ensures AllDigits(groups[k])
      {
        assert k > 0 ==> groups[k] == groups[1..][k - 1];
      }
    }
  }

  lemma GroupIsAsWanted(loc: Locale, digits: nat, groups: nat, k: nat, total: nat)
    requires loc.Groups() && k < groups - 1 && digits + groups - 1 <= total <= CHAR_MAX
    requires var size := loc.grouping[if k < |loc.grouping| then k else |loc.grouping| - 1];
      digits == if size > 0 then size else CHAR_MAX
    ensures digits == Wanted(loc.grouping[EntryOf(|loc.grouping|, k)])
  {
  }

  lemma PrintedApart(w: Width, loc: Locale, n: nat) returns (groups: seq<string>)
    requires w.Valid() && loc.Groups() && n < w.values
    ensures ApartInGroups(loc, Printed(n, loc), groups, 0)
  {
    groups := PrintedInGroups(n, loc);
    DecimalSpells(n);
    DigitsApart(groups);
    DecimalLength(n, w.digits10 + 1);
    hide AllDigits, Concatenated, Joined, Printed, Decimal;
    forall k | 0 <= k < |groups|
      ensures if k < |groups| - 1 then |groups[k]| == Wanted(loc.grouping[EntryOf(|loc.grouping|, k)])
              else groups[k] != ""
    {
      LongEnough(groups, k);
      if k < |groups| - 1 {
        GroupIsAsWanted(loc, |groups[k]|, |groups|, k, |Concatenated(groups)|);
      }
    }
  }

  /** What the printer writes stands in groups: a group without limit takes all that is left, since
  no type has so many digits. */
  lemma PrintedStands(w: Width, loc: Locale, n: nat)
    requires w.Valid() && loc.Groups() && n < w.values
    ensures GroupsStand(loc, Printed(n, loc))
  {
    var groups := PrintedApart(w, loc, n);
    ApartStands(loc, Printed(n, loc), groups, 0);
  }

  lemma PrintedIsAccepted(w: Width, loc: Locale, n: nat)
    requires w.Valid() && loc.Groups() && !IsDigit(loc.separator)
    ensures n < w.values ==>
      GroupsStand(loc, Printed(n, loc)) && Plain(w, Strip(Printed(n, loc))) == Some(n)
  {
    if n < w.values {
      PrintedStands(w, loc, n);
      PrintedSpells(w, n, loc);
      PlainIsExact(w, Strip(Printed(n, loc)));
    }
  }

  // ---------- the loop ----------

  lemma AllDigitsFront(front: string)
    requires front != ""
    ensures AllDigits(front) <==> AllDigits(front[..|front| - 1]) && IsDigit(front[|front| - 1])
  {
  }

  lemma StandsAtDigit(loc: Locale, front: string, current: nat, need: nat)
    requires loc.Groups() && front != "" && need > 0
    ensures Stands(loc, front, current, need) <==>
      IsDigit(front[|front| - 1]) && Stands(loc, front[..|front| - 1], current, need - 1)
  {
    var g := front[..|front| - 1];
    AllDigitsFront(front);
    if |front| > need + 1 {
      assert front[..|front| - need - 1] == g[..|g| - (need - 1) - 1];
      var group := front[|front| - need..];
      assert group[..|group| - 1] == g[|g| - (need - 1)..];
      AllDigitsFront(group);
    }
  }

  lemma StandsAtSeparator(loc: Locale, front: string, current: nat)
    requires loc.Groups() && front != "" && front[|front| - 1] == loc.separator && !IsDigit(loc.separator)
    requires Next(loc, current) < |loc.grouping|
    ensures var next := Next(loc, current);
      Stands(loc, front, current, 0) <==>
      |front| > 1 && Stands(loc, front[..|front| - 1], next, Wanted(loc.grouping[next]))
  {
    AllDigitsFront(front);
    assert front[|front|..] == "";
  }

  lemma StandsAtOther(loc: Locale, front: string, current: nat)
    requires loc.Groups() && front != "" && front[|front| - 1] != loc.separator
    ensures Stands(loc, front, current, 0) <==> AllDigits(front)
  {
  }

  /** Digits and separators only. */
  ghost predicate Grouped(s: string, separator: char) {
    forall i :: 0 <= i < |s| ==> IsDigit(s[i]) || s[i] == separator
  }

  lemma GroupedFurther(s: string, i: nat, separator: char)
    requires 0 < i <= |s| && Grouped(s[i..], separator) && (IsDigit(s[i - 1]) || s[i - 1] == separator)
    ensures Grouped(s[i - 1..], separator)
    ensures Strip(s[i - 1..]) == (if IsDigit(s[i - 1]) then [s[i - 1]] else "") + Strip(s[i..])
  {
    assert s[i - 1..][1..] == s[i..];
  }

  /** What the plain parser would make of the digits still to come. */
  ghost function Onward(w: Width, front: string, value: nat, multiplier: nat): Option<nat>
    requires w.values > 0 && w.arithmetic > 0
  {
    match Fold(w, Strip(front), value, multiplier)
    case None => None
    case Some(end) => Some(end.0)
  }

  lemma OnwardAtDigit(w: Width, s: string, i: nat, value: nat, multiplier: nat)
    requires w.values > 0 && w.arithmetic > 0 && 0 < i <= |s|
    ensures var step := DigitStep(w, value, multiplier, s[i - 1]);
      IsDigit(s[i - 1]) ==>
        (Onward(w, s[..i], value, multiplier) ==
         if step.None? then None else Onward(w, s[..i - 1], step.value.0, step.value.1))
  {
    hide DigitStep, Strip;
    var front, c := s[..i - 1], s[i - 1];
    assert s[..i] == front + [c];
    StripLast(front, c);
    if IsDigit(c) {
      var digits := Strip(front) + [c];
      assert digits[..|digits| - 1] == Strip(front) && digits[|digits| - 1] == c;
    }
  }

  lemma OnwardAtSeparator(w: Width, s: string, i: nat, value: nat, multiplier: nat)
    requires w.values > 0 && w.arithmetic > 0 && 0 < i <= |s| && !IsDigit(s[i - 1])
    ensures Onward(w, s[..i], value, multiplier) == Onward(w, s[..i - 1], value, multiplier)
  {
    hide Fold, Strip;
    var front, c := s[..i - 1], s[i - 1];
    assert s[..i] == front + [c];
    StripLast(front, c);
  }

  lemma OnwardAtFirst(w: Width, s: string)
    requires w.values > 0 && w.arithmetic > 0 && s != "" && IsDigit(s[|s| - 1])
    ensures Plain(w, Strip(s)) == Onward(w, s[..|s| - 1], DigitOf(s[|s| - 1]), 1)
  {
    hide Fold, Strip;
    var front, c := s[..|s| - 1], s[|s| - 1];
    assert s == front + [c];
    StripLast(front, c);
    var digits := Strip(front) + [c];
    assert digits[..|digits| - 1] == Strip(front) && digits[|digits| - 1] == c;
  }

  lemma OnwardAtEnd(w: Width, front: string, value: nat, multiplier: nat)
    requires w.values > 0 && w.arithmetic > 0
    ensures AllDigits(front) ==>
      var r, whole := Fold(w, front, value, multiplier), Onward(w, front, value, multiplier);
      (r.Some? <==> whole.Some?) && (r.Some? ==> whole.value == r.value.0)
    ensures front == "" ==> Onward(w, front, value, multiplier) == Some(value)
  {
  }

  /** Reads grouped digits from the end, after the last one. A text is accepted exactly if its
  separators stand where the groups put them and the plain parser would accept its digits, and
  it denotes what they do. */
  method RetGrouped(w: Width, loc: Locale, s: string, ghost n: nat) returns (ok: bool, value: nat)
    requires w.Valid() && loc.Groups() && !IsDigit(loc.separator) && s != "" && IsDigit(s[|s| - 1])
    ensures value < w.values
    ensures ok <==> GroupsStand(loc, s) && Plain(w, Strip(s)).Some?
    ensures ok ==> value == Plain(w, Strip(s)).value
    ensures ok ==> Grouped(s, loc.separator) && (|Strip(s)| <= w.digits10 + 1 ==> value == Value(Strip(s)))
    ensures |Strip(s)| <= w.digits10 + 1 ==> (ok <==> GroupsStand(loc, s) && Value(Strip(s)) < w.values)
    ensures n < w.values && s == Printed(n, loc) ==> ok
  {
    hide *;
    FirstInside(loc);
    FirstDigit(w, loc, s);
    ShortIsExact(w, s);
    PrintedIsAccepted(w, loc, n);
    var i: nat, multiplier: nat := |s| - 1, 1;
    value := DigitOf(s[i]);
    var current: nat, remained: GroupChar := 0, loc.grouping[0] - 1;
    OnwardAtFirst(w, s);
    while i > 0
      invariant i < |s| && current < |loc.grouping| && value < w.values
      invariant GroupsStand(loc, s) <==> Stands(loc, s[..i], current, Wanted(remained))
      invariant Plain(w, Strip(s)) == Onward(w, s[..i], value, multiplier)
      invariant Grouped(s[i..], loc.separator)
    {
      if remained != 0 {
        var step := DigitStep(w, value, multiplier, s[i - 1]);
        StepMultiplies(w, value, multiplier, s[i - 1]);
        StandsTurn(loc, s, i, current, remained);
        OnwardAtDigit(w, s, i, value, multiplier);
        if step.None? {
          return false, value;
        }
        GroupedFurther(s, i, loc.separator);
        value, multiplier, remained := step.value.0, step.value.1, ToChar(remained - 1);
      } else if s[i - 1] != loc.separator {
        ok, value := PlainRest(w, loc, s, i, value, multiplier, current);
        return;
      } else {
        GroupedFurther(s, i, loc.separator);
        NextInside(loc, current);
        SeparatorTurn(loc, s, i, current);
        OnwardAtSeparator(w, s, i, value, multiplier);
        if i == 1 {
          return false, value;
        }
        current := Next(loc, current);
        remained := loc.grouping[current];
      }
      i := i - 1;
    }
    assert s[0..] == s;
    NothingStands(loc, s[..0], current, Wanted(remained));
    OnwardAtEnd(w, s[..0], value, multiplier);
    ok := true;
  }

  lemma FirstInside(loc: Locale)
    requires loc.Groups()
    ensures loc.Local? && |loc.grouping| > 0 && loc.grouping[0] > 0
  {
  }

  /** On few enough digits the plain parser is exact. */
  lemma ShortIsExact(w: Width, s: string)
    requires w.Valid() && s != "" && IsDigit(s[|s| - 1])
    ensures |Strip(s)| <= w.digits10 + 1 ==>
      && (Plain(w, Strip(s)).Some? <==> Value(Strip(s)) < w.values)
      && (Plain(w, Strip(s)).Some? ==> Plain(w, Strip(s)).value == Value(Strip(s)))
  {
    assert s == s[..|s| - 1] + [s[|s| - 1]];
    StripLast(s[..|s| - 1], s[|s| - 1]);
    if |Strip(s)| <= w.digits10 + 1 {
      PlainIsExact(w, Strip(s));
    }
  }

  lemma NothingStands(loc: Locale, front: string, current: nat, need: nat)
    requires loc.Groups() && front == ""
    ensures Stands(loc, front, current, need)
  {
  }

  lemma NextInside(loc: Locale, current: nat)
    requires loc.Groups() && current < |loc.grouping|
    ensures Next(loc, current) < |loc.grouping|
  {
  }

  lemma StandsTurn(loc: Locale, s: string, i: nat, current: nat, remained: GroupChar)
    requires loc.Groups() && 0 < i <= |s| && remained != 0
    ensures Stands(loc, s[..i], current, Wanted(remained)) <==>
      IsDigit(s[i - 1]) && Stands(loc, s[..i - 1], current, Wanted(ToChar(remained - 1)))
  {
    assert s[..i][..i - 1] == s[..i - 1];
    StandsAtDigit(loc, s[..i], current, Wanted(remained));
  }

  lemma SeparatorTurn(loc: Locale, s: string, i: nat, current: nat)
    requires loc.Groups() && 0 < i <= |s| && s[i - 1] == loc.separator && !IsDigit(loc.separator)
    requires Next(loc, current) < |loc.grouping|
    ensures var next := Next(loc, current);
      Stands(loc, s[..i], current, 0) <==> i > 1 && Stands(loc, s[..i - 1], next, Wanted(loc.grouping[next]))
  {
    assert s[..i][..i - 1] == s[..i - 1];
    StandsAtSeparator(loc, s[..i], current);
  }

  lemma FirstDigit(w: Width, loc: Locale, s: string)
    requires w.Valid() && loc.Groups() && s != "" && IsDigit(s[|s| - 1])
    ensures Grouped(s[|s| - 1..], loc.separator) && 0 <= DigitOf(s[|s| - 1]) < w.values
    ensures w.values > 0 && w.arithmetic > 0 && Wanted(0) == 0
    ensures GroupsStand(loc, s) <==> Stands(loc, s[..|s| - 1], 0, Wanted(loc.grouping[0] - 1))
  {
    StandsAtDigit(loc, s, 0, loc.grouping[0]);
    hide Stands;
  }

  /** The parser found no separator where one could stand: the rest counts as plain. */
  method PlainRest(w: Width, loc: Locale, s: string, i: nat, soFar: nat, multiplier: nat, ghost current: nat)
    returns (ok: bool, value: nat)
    requires w.Valid() && loc.Groups() && 0 < i < |s| && soFar < w.values && current < |loc.grouping|
    requires Grouped(s[i..], loc.separator) && s[i - 1] != loc.separator
    requires GroupsStand(loc, s) <==> Stands(loc, s[..i], current, 0)
    requires Plain(w, Strip(s)) == Onward(w, s[..i], soFar, multiplier)
    ensures value < w.values && (ok ==> Grouped(s, loc.separator))
    ensures ok <==> GroupsStand(loc, s) && Plain(w, Strip(s)).Some?
    ensures ok ==> value == Plain(w, Strip(s)).value
  {
    hide Stands, GroupsStand, Plain, Onward, Strip, Fold, AllDigits, Wanted, Next;
    StandsAtOther(loc, s[..i], current);
    OnwardAtEnd(w, s[..i], soFar, multiplier);
    GroupedJoins(s, i, loc.separator);
    ok, value := RetFold(w, s[..i], soFar, multiplier);
  }

  lemma GroupedJoins(s: string, i: nat, separator: char)
    requires i <= |s| && Grouped(s[i..], separator)
    ensures AllDigits(s[..i]) ==> Grouped(s, separator)
  {
    if AllDigits(s[..i]) {
      forall k | 0 <= k < |s|
        ensures IsDigit(s[k]) || s[k] == separator
      {
        if k < i {
          assert s[..i][k] == s[k];
        } else {
          assert s[i..][k - i] == s[k];
        }
      }
    }
  }

  // ---------- unsigned ----------

  /** What the parser makes of a text where no grouping is in force. */
  function Plain(w: Width, s: string): Option<nat>
    requires w.values > 0 && w.arithmetic > 0
  {
    if s == "" || !IsDigit(s[|s| - 1]) then None
    else
      match Fold(w, s[..|s| - 1], DigitOf(s[|s| - 1]), 1)
      case None => None
      case Some(end) => Some(end.0)
  }

  /** The parser. `n` is any number the text may have been printed from: if it was, it comes
  back. Without grouping it is the plain loop, which is exact on every text of at most one
  digit more than `digits10`. In a grouping locale a text is accepted if and only if its
  separators stand where the groups put them and the plain loop accepts its digits, and denotes
  what they denote; and never is one accepted that does not end in a digit. */
  method LcastRetUnsigned(w: Width, loc: Locale, s: string, ghost n: nat) returns (ok: bool, value: nat)
    requires w.Valid() && (loc.Local? ==> !IsDigit(loc.separator))
    ensures value < w.values && (s == "" ==> !ok)
    ensures !loc.Groups() && 0 < |s| <= w.digits10 + 1 ==>
      && (ok <==> AllDigits(s) && Value(s) < w.values)
      && (ok ==> value == Value(s))
    ensures !loc.Groups() ==> (ok <==> Plain(w, s).Some?) && (ok ==> value == Plain(w, s).value)
    ensures ok ==> if loc.Groups() then Grouped(s, loc.separator) && GroupsStand(loc, s) else AllDigits(s)
    ensures loc.Groups() && |Strip(s)| <= w.digits10 + 1 ==>
      (ok <==> GroupsStand(loc, s) && Value(Strip(s)) < w.values)
    ensures ok && |Strip(s)| <= w.digits10 + 1 ==> value == Value(Strip(s))
    ensures loc.Groups() ==> (ok <==> GroupsStand(loc, s) && Plain(w, Strip(s)).Some?)
    ensures loc.Groups() && ok ==> value == Plain(w, Strip(s)).value
    ensures ok ==> s != "" && IsDigit(s[|s| - 1])
    ensures n < w.values && s == Printed(n, loc) ==> ok && value == n
  {
    hide Stands, Fold, Printed, Strip, Value, Grouped;
    if n < w.values && s == Printed(n, loc) {
      PrintedSpells(w, n, loc);
    }
    if s == "" || !IsDigit(s[|s| - 1]) {
      if loc.Groups() && s != "" {
        StandsAtDigit(loc, s, 0, loc.grouping[0]);
      }
      return false, 0;
    }
    if loc.Groups() {
      ok, value := RetGrouped(w, loc, s, n);
    } else {
      var last := |s| - 1;
      assert s == s[..last] + [s[last]];
      OneDigit(w, s[last]);
      StripOfDigits(s);
      ok, value := RetPlain(w, s[..last], DigitOf(s[last]), 1, [s[last]]);
    }
  }

  lemma StripOfDigits(s: string)
    ensures AllDigits(s) ==> Strip(s) == s
  {
  }

  lemma OneDigit(w: Width, c: char)
    requires w.Valid() && IsDigit(c)
    ensures Reading(w, [c], DigitOf(c), 1)
  {
    assert [c][1..] == "" && Pow10(0) == 1;
  }

  lemma PrintedSpells(w: Width, n: nat, loc: Locale)
    requires w.Valid() && n < w.values && (loc.Local? ==> !IsDigit(loc.separator))
    ensures var s := Printed(n, loc);
      && IsDigit(s[|s| - 1]) && Strip(s) == Decimal(n)
      && |Strip(s)| <= w.digits10 + 1 && Value(Strip(s)) == n
      && (!loc.Groups() ==> AllDigits(s))
  {
    DecimalLength(n, w.digits10 + 1);
    DecimalSpells(n);
    if loc.Groups() {
      TextStripped(n, loc.grouping, loc.separator, 0, loc.grouping[0], loc.grouping[0]);
    }
  }

  // ---------- longer texts ----------

  /** The text is read as the number it spells, or refused because it spells none that fits. */
  ghost predicate Right(w: Width, s: string)
    requires w.Valid()
  {
    && (Plain(w, s).Some? <==> s != "" && AllDigits(s) && Value(s) < w.values)
    && (Plain(w, s).Some? ==> Plain(w, s).value == Value(s))
  }

  lemma PlainIsExact(w: Width, s: string)
    requires w.Valid() && |s| <= w.digits10 + 1
    ensures Right(w, s)
  {
    if s != "" && IsDigit(s[|s| - 1]) {
      var front, last := s[..|s| - 1], s[|s| - 1];
      assert s == front + [last];
      OneDigit(w, last);
      FoldIsExact(w, front, DigitOf(last), 1, [last]);
    }
  }

  function Zeros(k: nat): string {
    if k == 0 then "" else "0" + Zeros(k - 1)
  }

  lemma {:induction false} FoldSplit(w: Width, front: string, end: string, value: nat, multiplier: nat)
    requires w.values > 0 && w.arithmetic > 0
    ensures Fold(w, front + end, value, multiplier) ==
      match Fold(w, end, value, multiplier)
      case None => None
      case Some(next) => Fold(w, front, next.0, next.1)
    decreases |end|
  {
    if end == "" {
      assert front + end == front;
    } else {
      var c, step := end[|end| - 1], DigitStep(w, value, multiplier, end[|end| - 1]);
      assert (front + end)[..|front + end| - 1] == front + end[..|end| - 1];
      assert (front + end)[|front + end| - 1] == c;
      if step.Some? {
        FoldSplit(w, front, end[..|end| - 1], step.value.0, step.value.1);
      }
    }
  }

  lemma FoldOne(w: Width, c: char, value: nat, multiplier: nat)
    requires w.values > 0 && w.arithmetic > 0
    ensures Fold(w, [c], value, multiplier) == DigitStep(w, value, multiplier, c)
  {
    assert [c][..0] == "";
  }

  lemma {:induction false} ZerosAre(k: nat)
    ensures |Zeros(k)| == k && AllDigits(Zeros(k)) && Value(Zeros(k)) == 0
    ensures Zeros(k + 1) == Zeros(k) + "0"
  {
    if k > 0 {
      ZerosAre(k - 1);
    }
  }

  // ---------- the multiplier, once it no longer fits ----------

  /** The multiplier with which the digit at place `k`, counted from the end, is read. */
  function Multiplier(w: Width, k: nat): nat
    requires w.values > 0 && k > 0
  {
    Pow10(k - 1) % w.values
  }

  lemma TimesTen(x: nat, n: nat)
    requires n > 0
    ensures x % n * 10 % n == x * 10 % n
  {
    var q, r := x / n, x % n;
    var q', r' := r * 10 / n, r * 10 % n;
    assert x == q * n + r && r * 10 == q' * n + r';
    assert (q * 10 + q') * n == q * n * 10 + q' * n;
    ModIs(x * 10, q * 10 + q', r', n);
  }

  lemma NextMultiplier(w: Width, j: nat)
    requires w.values > 0
    ensures Pow10(j) % w.values * 10 % w.values == Pow10(j + 1) % w.values
  {
    TimesTen(Pow10(j), w.values);
  }

  lemma StepMultiplies(w: Width, value: nat, multiplier: nat, c: char)
    requires w.values > 0 && w.arithmetic > 0
    ensures var r := DigitStep(w, value, multiplier, c);
      r.Some? ==> IsDigit(c) && r.value.0 < w.values && r.value.1 == multiplier * 10 % w.values
  {
  }

  /** It is the power of ten of the place, reduced to the type, whatever digits were read. */
  lemma {:induction false} FoldMultiplies(w: Width, rest: string, value: nat, j: nat)
    requires w.Valid() && value < w.values
    ensures var r := Fold(w, rest, value, Pow10(j) % w.values);
      r.Some? ==> AllDigits(rest) && r.value.0 < w.values && r.value.1 == Pow10(j + |rest|) % w.values
    decreases |rest|
  {
    hide DigitStep, Pow10;
    if rest != "" {
      var step := DigitStep(w, value, Pow10(j) % w.values, rest[|rest| - 1]);
      StepMultiplies(w, value, Pow10(j) % w.values, rest[|rest| - 1]);
      if step.Some? {
        NextMultiplier(w, j);
        FoldMultiplies(w, rest[..|rest| - 1], step.value.0, j + 1);
      }
    }
  }

  /** Zeros pass every check and leave the value. */
  lemma {:induction false} ZerosPass(w: Width, k: nat, value: nat, multiplier: nat)
    requires w.Valid() && value < w.values
    ensures var r := Fold(w, Zeros(k), value, multiplier); r.Some? && r.value.0 == value
    decreases k
  {
    if k > 0 {
      ZerosPass(w, k - 1, value, multiplier);
      FoldSplit(w, "0", Zeros(k - 1), value, multiplier);
      var next := Fold(w, Zeros(k - 1), value, multiplier).value;
      assert Zeros(k) == "0" + Zeros(k - 1);
      hide DigitStep, Fold, Zeros;
      FoldOne(w, '0', next.0, next.1);
      ZeroPasses(w, next.0, next.1);
    }
  }

  lemma ZeroPasses(w: Width, value: nat, multiplier: nat)
    requires w.Valid() && value < w.values
    ensures DigitStep(w, value, multiplier, '0') == Some((value, multiplier * 10 % w.values))
  {
    assert DigitOf('0') == 0;
    SmallMod(0, w.arithmetic);
    SmallMod(0, w.values);
  }

  // ---------- leading zeros ----------

  /** Zeros in front make no difference. */
  lemma LeadingZeros(w: Width, z: nat, s: string)
    requires w.Valid() && s != ""
    ensures Right(w, Zeros(z) + s) <==> Right(w, s)
  {
    hide DigitStep, Pow10, Fold, Value;
    var all, front, last := Zeros(z) + s, s[..|s| - 1], s[|s| - 1];
    ZerosAre(z);
    assert all[|all| - 1] == last && all[..|all| - 1] == Zeros(z) + front;
    assert AllDigits(all) <==> AllDigits(s) by {
      assert forall i :: 0 <= i < |s| ==> s[i] == all[z + i];
    }
    ZerosInFront(z, s);
    if IsDigit(last) {
      OneDigit(w, last);
      FoldSplit(w, Zeros(z), front, DigitOf(last), 1);
      var r := Fold(w, front, DigitOf(last), 1);
      if r.Some? {
        SmallMod(1, w.values);
        FoldMultiplies(w, front, DigitOf(last), 0);
        ZerosPass(w, z, r.value.0, r.value.1);
      }
    }
  }

  lemma {:induction false} ZerosInFront(z: nat, s: string)
    ensures Value(Zeros(z) + s) == Value(s)
  {
    if z == 0 {
      assert Zeros(0) + s == s;
    } else {
      ZerosInFront(z - 1, s);
      assert Zeros(z) + s == "0" + (Zeros(z - 1) + s);
      ValueOfFront('0', Zeros(z - 1) + s);
    }
  }

  // ---------- which texts are read right ----------

  /** Some digit other than zero at this place passes the checks, if only zeros follow. */
  ghost predicate Slips(w: Width, k: nat)
    requires w.values > 0 && w.arithmetic > 0 && k > 0
  {
    exists c :: IsDigit(c) && c != '0' && DigitStep(w, 0, Multiplier(w, k), c).Some?
  }

  /** That is so exactly if some product with the multiplier, reduced, is below a tenth of the
  type. */
  lemma SlipsIfItFits(w: Width, k: nat)
    requires w.Valid() && k > 0
    ensures Slips(w, k) <==>
      exists d: nat {:trigger Digit(d)} :: 0 < d < 10 && 10 * (Pow10(k - 1) % w.values * d % w.arithmetic) < w.values
  {
    var m := Multiplier(w, k);
    forall c | IsDigit(c)
      ensures DigitStep(w, 0, m, c).Some? <==> 10 * (m * DigitOf(c) % w.arithmetic) < w.values
    {
      PassesIfItFits(w, 0, m, c);
    }
    hide DigitStep, Pow10;
    if Slips(w, k) {
      var c :| IsDigit(c) && c != '0' && DigitStep(w, 0, m, c).Some?;
      assert Digit(DigitOf(c)) == c;
    }
    forall d: nat | 0 < d < 10 && 10 * (m * d % w.arithmetic) < w.values
      ensures Slips(w, k)
    {
      assert IsDigit(Digit(d)) && Digit(d) != '0' && DigitOf(Digit(d)) == d;
    }
  }

  /** Any other digits behind make it no easier. */
  lemma EasiestAtZero(w: Width, value: nat, multiplier: nat, c: char)
    requires w.Valid() && value < w.values && DigitStep(w, value, multiplier, c).Some?
    ensures DigitStep(w, 0, multiplier, c).Some?
  {
  }

  lemma TooLarge(w: Width, c: char, end: string)
    requires w.Valid() && IsDigit(c) && c != '0' && AllDigits(end) && |end| > w.digits10
    ensures Value([c] + end) >= w.values
  {
    ValueOfFront(c, end);
    ValueBounds(end);
    Pow10Grows(w.digits10 + 1, |end|);
    AtLeastOnce(DigitOf(c), Pow10(|end|));
  }

  lemma AtLeastOnce(d: int, p: nat)
    requires d >= 1
    ensures d * p >= p
  {
    assert d * p == (d - 1) * p + p && (d - 1) * p >= 0;
  }

  /** A number beyond the type is refused if no digit slips at its first place. */
  lemma LongIsRefused(w: Width, s: string)
    requires w.Valid() && |s| > w.digits10 + 1 && s[0] != '0' && !Slips(w, |s| - 1)
    ensures Plain(w, s).None? && Right(w, s)
  {
    var c, mid, last := s[0], s[1..|s| - 1], s[|s| - 1];
    assert s[..|s| - 1] == [c] + mid && s == [c] + s[1..];
    if Plain(w, s).Some? {
      OneDigit(w, last);
      SmallMod(1, w.values);
      FoldMultiplies(w, mid, DigitOf(last), 0);
      FoldSplit(w, [c], mid, DigitOf(last), 1);
      var r := Fold(w, mid, DigitOf(last), 1).value;
      FoldOne(w, c, r.0, r.1);
      EasiestAtZero(w, r.0, r.1, c);
      assert false;
    }
    if AllDigits(s) {
      TooLarge(w, c, s[1..]);
    }
  }

  /** A digit and zeros behind it. */
  function Overflowing(c: char, k: nat): string {
    [c] + Zeros(k)
  }

  /** If a digit slips, the text of it and zeros is accepted, although no such number fits. */
  lemma OverflowingIsAccepted(w: Width, c: char, k: nat)
    requires w.Valid() && k > w.digits10 && IsDigit(c) && c != '0'
    requires DigitStep(w, 0, Multiplier(w, k), c).Some?
    ensures AllDigits(Overflowing(c, k)) && Plain(w, Overflowing(c, k)).Some?
    ensures Value(Overflowing(c, k)) >= w.values
  {
    var s := Overflowing(c, k);
    ZerosAre(k);
    ZerosAre(k - 1);
    assert s[|s| - 1] == '0' && s[..|s| - 1] == [c] + Zeros(k - 1);
    TooLarge(w, c, Zeros(k));
    hide DigitStep, Fold, Zeros;
    SmallMod(1, w.values);
    ZerosPass(w, k - 1, 0, 1);
    FoldMultiplies(w, Zeros(k - 1), 0, 0);
    FoldSplit(w, [c], Zeros(k - 1), 0, 1);
    FoldOne(w, c, 0, Multiplier(w, k));
  }

  /** Whether a text has so many digits from the first that is not zero. */
  predicate Significant(s: string, g: nat) {
    |s| == g && (s != "" ==> s[0] != '0')
  }

  /** Every parser reads all texts with `g` significant digits right, after any number of zeros,
  exactly if there are at most `digits10 + 1` of them or no digit slips at the first place. */
  lemma RightBySignificance(w: Width, g: nat)
    requires w.Valid()
    ensures (forall z: nat, s: string :: Significant(s, g) ==> Right(w, Zeros(z) + s)) <==>
      g <= w.digits10 + 1 || !Slips(w, g - 1)
  {
    if g <= w.digits10 + 1 || !Slips(w, g - 1) {
      forall z: nat, s: string | Significant(s, g)
        ensures Right(w, Zeros(z) + s)
      {
        ShortOrRefused(w, z, s);
      }
    } else {
      var c :| IsDigit(c) && c != '0' && DigitStep(w, 0, Multiplier(w, g - 1), c).Some?;
      ZerosAre(g - 1);
      OverflowingIsAccepted(w, c, g - 1);
      assert Significant(Overflowing(c, g - 1), g) && Zeros(0) + Overflowing(c, g - 1) == Overflowing(c, g - 1);
      assert !Right(w, Zeros(0) + Overflowing(c, g - 1));
    }
  }

  lemma ShortOrRefused(w: Width, z: nat, s: string)
    requires w.Valid() && Significant(s, |s|) && (|s| <= w.digits10 + 1 || !Slips(w, |s| - 1))
    ensures Right(w, Zeros(z) + s)
  {
    if s == "" && z == 0 {
      assert Zeros(z) + s == "";
    } else if s == "" {
      ZerosAre(z - 1);
      assert Zeros(z) + s == Zeros(z - 1) + "0";
      PlainIsExact(w, "0");
      LeadingZeros(w, z - 1, "0");
    } else {
      if |s| <= w.digits10 + 1 {
        PlainIsExact(w, s);
      } else {
        LongIsRefused(w, s);
      }
      LeadingZeros(w, z, s);
    }
  }

  /** Every text is some zeros and what is significant. */
  lemma {:induction false} Normalized(s: string) returns (z: nat, rest: string)
    ensures s == Zeros(z) + rest && Significant(rest, |rest|)
  {
    if s == "" || s[0] != '0' {
      z, rest := 0, s;
    } else {
      z, rest := Normalized(s[1..]);
      z := z + 1;
    }
  }

  /** And all texts of a length, exactly if no digit slips anywhere in them. */
  lemma RightByLength(w: Width, length: nat)
    requires w.Valid()
    ensures (forall s: string :: |s| == length ==> Right(w, s)) <==>
      (forall k: nat :: w.digits10 < k < length ==> !Slips(w, k))
  {
    if forall k: nat :: w.digits10 < k < length ==> !Slips(w, k) {
      forall s: string | |s| == length
        ensures Right(w, s)
      {
        var z, rest := Normalized(s);
        ShortOrRefused(w, z, rest);
      }
    } else {
      var k: nat :| w.digits10 < k < length && Slips(w, k);
      var c :| IsDigit(c) && c != '0' && DigitStep(w, 0, Multiplier(w, k), c).Some?;
      ZerosAre(k);
      ZerosAre(length - k - 1);
      OverflowingIsAccepted(w, c, k);
      LeadingZeros(w, length - k - 1, Overflowing(c, k));
      assert !Right(w, Zeros(length - k - 1) + Overflowing(c, k));
    }
  }

  // ---------- the widths there are ----------

  /** Where products do not wrap, a digit slips exactly if the multiplier, once reduced, happens
  to be small again. */
  lemma SlipsIfSmall(w: Width, k: nat)
    requires w.Valid() && w.arithmetic >= 90 * w.values && k > w.digits10
    ensures Slips(w, k) <==> 10 * Multiplier(w, k) < w.values
  {
    var m := Multiplier(w, k);
    hide DigitStep, Multiplier;
    if 10 * m < w.values {
      OneSlips(w, m);
      assert IsDigit('1') && '1' != '0';
    } else {
      forall c | IsDigit(c) && c != '0'
        ensures DigitStep(w, 0, m, c).None?
      {
        NoDigitSlips(w, m, c);
      }
    }
  }

  lemma OneSlips(w: Width, m: nat)
    requires w.Valid() && w.arithmetic >= 90 * w.values && 10 * m < w.values
    ensures DigitStep(w, 0, m, '1').Some?
  {
    assert DigitOf('1') == 1;
    SmallMod(10 * m, w.arithmetic);
    SmallMod(10 * m, w.values);
    SmallMod(m, w.arithmetic);
  }

  lemma NoDigitSlips(w: Width, m: nat, c: char)
    requires w.Valid() && w.arithmetic >= 90 * w.values && m < w.values <= 10 * m && IsDigit(c) && c != '0'
    ensures DigitStep(w, 0, m, c).None?
  {
    var d := DigitOf(c);
    var x := m * d;
    AtMostNine(d, m);
    AtLeastOnce(d, m);
    assert x == d * m;
    TenTimes(m, d);
    var y := 10 * x % w.values;
    assert x < w.arithmetic && 10 * x < w.arithmetic && 10 * x >= w.values && y < w.values;
    SmallMod(x, w.arithmetic);
    SmallMod(10 * x, w.arithmetic);
    assert y < 10 * x;
  }

  lemma TenTimes(m: nat, d: int)
    ensures m * 10 * d == 10 * (m * d)
  {
  }

  const U16 := Width(0x1_0000, 0x1_0000_0000, 4)
  const U32 := Width(0x1_0000_0000, 0x1_0000_0000, 9)
  const U64 := Width(0x1_0000_0000_0000_0000, 0x1_0000_0000_0000_0000, 19)

  lemma WidthsAreValid()
    ensures U16.Valid() && U32.Valid() && U64.Valid()
  {
    assert Pow10(4) == 10_000 && Pow10(5) == 100_000;
    assert Pow10(9) == 1_000_000_000 && Pow10(10) == 10_000_000_000;
    assert Pow10(19) == 10_000_000_000_000_000_000 && Pow10(20) == 100_000_000_000_000_000_000;
  }

  lemma WideSlips(w: Width)
    requires w == U32 || w == U64
    ensures Slips(w, w.digits10 + 1)
  {
    assert Pow10(9) == 1_000_000_000;
    assert Pow10(19) == 10_000_000_000_000_000_000;
    var c := if w == U32 then '9' else '2';
    assert IsDigit(c) && c != '0' && DigitStep(w, 0, Multiplier(w, w.digits10 + 1), c).Some?;
  }

  /** The powers of ten come round below a tenth of the 16-bit type at the thirteenth place. */
  lemma NarrowSlips(k: nat)
    requires 4 < k <= 13
    ensures Slips(U16, k) <==> k == 13
  {
    WidthsAreValid();
    hide Slips, Pow10;
    SlipsIfSmall(U16, k);
    NarrowMultipliers();
    assert Multiplier(U16, k) == Pow10(k - 1) % 0x1_0000;
  }

  lemma NarrowMultipliers()
    ensures Pow10(4) % 0x1_0000 == 10_000 && Pow10(5) % 0x1_0000 == 34_464 && Pow10(6) % 0x1_0000 == 16_960
    ensures Pow10(7) % 0x1_0000 == 38_528 && Pow10(8) % 0x1_0000 == 57_600 && Pow10(9) % 0x1_0000 == 51_712
    ensures Pow10(10) % 0x1_0000 == 58_368 && Pow10(11) % 0x1_0000 == 59_392 && Pow10(12) % 0x1_0000 == 4_096
  {
  }

  /** How long a text may be for the parser to be right whatever it says: 13 characters for 16
  bits, which are computed in `int`; for 32 and 64 bits one more than `digits10`. */
  function LongestRight(w: Width): nat {
    if w == U16 then 13 else w.digits10 + 1
  }

  /** The 16-bit, the 32-bit and the 64-bit parser read every text of a length right exactly if
  it is no longer than that. */
  lemma RightUpToLength(w: Width, length: nat)
    requires w == U16 || w == U32 || w == U64
    ensures w.Valid()
    ensures (forall s: string :: |s| == length ==> Right(w, s)) <==> length <= LongestRight(w)
  {
    WidthsAreValid();
    RightByLength(w, length);
    if w == U16 {
      forall k: nat | 4 < k <= 13
        ensures Slips(w, k) <==> k == 13
      {
        NarrowSlips(k);
      }
    } else {
      WideSlips(w);
    }
    hide Slips;
    assert length > LongestRight(w) ==> w.digits10 < LongestRight(w) < length && Slips(w, LongestRight(w));
  }
}
