/** Integers to text and back: the printer writes from the end of a buffer towards its
beginning, the parser reads from the end towards the beginning and checks for overflow. */
module LexicalCast {
  import Remainders

  // ---------- widths ----------

  const CHAR_MAX: int := 127

  function Pow10(k: nat): (p: nat)
    ensures p >= 1
  {
    if k == 0 then 1 else 10 * Pow10(k - 1)
  }

  /** An unsigned type with so many values. Types narrower than the machine's `int` are
  computed in a wider one; `arithmetic` is the modulus of the products. */
  datatype Width = Width(values: nat, arithmetic: nat, digits10: nat) {

    ghost predicate Valid() {
      && values >= 10 && (arithmetic == values || arithmetic >= 90 * values)
      && Pow10(digits10) < values < Pow10(digits10 + 1)
      // statically asserted by the printer
      && digits10 < CHAR_MAX
    }
  }

  /** A value of C's `char` where it is signed. */
  type GroupChar = c: int | -128 <= c <= 127 witness 0

  function ToChar(x: int): GroupChar {
    (x + 128) % 256 - 128
  }

  datatype Locale = Classic | Local(grouping: seq<GroupChar>, separator: char) {

    /** Whether separators are written at all. */
    predicate Groups() {
      Local? && |grouping| > 0 && grouping[0] > 0
    }
  }

  predicate IsDigit(c: char) {
    '0' <= c <= '9'
  }

  function DigitOf(c: char): int {
    c as int - '0' as int
  }

  function Digit(d: nat): (c: char)
    requires d < 10
    ensures IsDigit(c) && DigitOf(c) == d
  {
    '0' + d as char
  }

  // ---------- what is printed ----------

  function Decimal(n: nat): (s: string)
    ensures |s| > 0
  {
    (if n < 10 then "" else Decimal(n / 10)) + [Digit(n % 10)]
  }

  function NextSize(grouping: seq<GroupChar>, group: nat, size: int): int {
    if group < |grouping| then
      (if grouping[group] <= 0 then CHAR_MAX else grouping[group])
    else
      size
  }

  /** The text of `n`, when `left` digits of the group of this size are still to come. */
  function Text(n: nat, grouping: seq<GroupChar>, separator: char, group: nat, left: nat, size: int): (s: string)
    requires size > 0
    ensures |s| > 0
    decreases n
  {
    var group' := if left == 0 then group + 1 else group;
    var size' := if left == 0 then NextSize(grouping, group + 1, size) else size;
    var left' := (if left == 0 then size' else left) - 1;
    (if n < 10 then "" else Text(n / 10, grouping, separator, group', left', size'))
    + [Digit(n % 10)] + (if left == 0 then [separator] else "")
  }

  function Printed(n: nat, loc: Locale): (s: string)
    ensures |s| > 0
  {
    if loc.Groups() then
      Text(n, loc.grouping, loc.separator, 0, loc.grouping[0], loc.grouping[0])
    else
      Decimal(n)
  }

  // ---------- the printer ----------

  /** Writes the text of `n` so that it ends at `finish`; the cells outside it stay as they are. */
  method LcastPutUnsigned(w: Width, n: nat, loc: Locale, buffer: array<char>, finish: nat) returns (start: nat)
    requires w.Valid() && n < w.values
    requires |Printed(n, loc)| <= finish <= buffer.Length
    modifies buffer
    ensures start <= finish && buffer[start..finish] == Printed(n, loc)
    ensures forall i :: 0 <= i < buffer.Length && !(start <= i < finish) ==> buffer[i] == old(buffer[i])
  {
    if loc.Groups() {
      start := PutGrouped(n, loc, buffer, finish);
    } else {
      start := PutPlain(n, buffer, finish);
    }
  }

  /** `--finish; *finish = c`. */
  method Prepend(buffer: array<char>, at: nat, c: char, ghost finish: nat) returns (start: nat)
    requires 0 < at <= finish <= buffer.Length
    modifies buffer
    ensures start == at - 1 && buffer[start..finish] == [c] + old(buffer[at..finish])
    ensures forall i :: 0 <= i < buffer.Length && i != start ==> buffer[i] == old(buffer[i])
  {
    start := at - 1;
    buffer[start] := c;
    assert buffer[at..finish] == old(buffer[at..finish]);
  }

  lemma Regroup(front: string, digit: char, separator: string, behind: string)
    ensures front + [digit] + separator + behind == front + ([digit] + (separator + behind))
  {
  }

  /** One turn of the loop below, seen from the text. */
  lemma TextUnfolds(n: nat, loc: Locale, group: nat, left: nat, size: int, behind: string)
    requires loc.Local? && size > 0
    ensures var group' := if left == 0 then group + 1 else group;
      var size' := if left == 0 then NextSize(loc.grouping, group + 1, size) else size;
      var left' := (if left == 0 then size' else left) - 1;
      var front := if n < 10 then "" else Text(n / 10, loc.grouping, loc.separator, group', left', size');
      Text(n, loc.grouping, loc.separator, group, left, size) + behind
      == front + ([Digit(n % 10)] + ((if left == 0 then [loc.separator] else "") + behind))
  {
    var group' := if left == 0 then group + 1 else group;
    var size' := if left == 0 then NextSize(loc.grouping, group + 1, size) else size;
    var left' := (if left == 0 then size' else left) - 1;
    var front := if n < 10 then "" else Text(n / 10, loc.grouping, loc.separator, group', left', size');
    Regroup(front, Digit(n % 10), if left == 0 then [loc.separator] else "", behind);
  }

  /** Where a group is full, writes a separator and begins the next one. */
  method PutSeparator(loc: Locale, buffer: array<char>, at: nat, group: nat, left: nat, size: int, ghost finish: nat)
    returns (start: nat, group': nat, left': nat, size': int)
    requires loc.Local? && size > 0 && at <= finish <= buffer.Length && (left == 0 ==> at > 0)
    modifies buffer
    ensures start == (if left == 0 then at - 1 else at)
    ensures buffer[start..finish] == (if left == 0 then [loc.separator] else "") + old(buffer[at..finish])
    ensures forall i :: 0 <= i < buffer.Length && !(start <= i < finish) ==> buffer[i] == old(buffer[i])
    ensures group' == if left == 0 then group + 1 else group
    ensures size' == if left == 0 then NextSize(loc.grouping, group + 1, size) else size
    ensures left' == if left == 0 then size' else left
  {
    start, group', left', size' := at, group, left, size;
    if left == 0 {
      group' := group + 1;
      if group' < |loc.grouping| {
        var grp_size := loc.grouping[group'];
        size' := if grp_size <= 0 then CHAR_MAX else grp_size;
      }
      left' := size';
      start := Prepend(buffer, at, loc.separator, finish);
    }
  }

  method PutGrouped(value: nat, loc: Locale, buffer: array<char>, finish: nat) returns (start: nat)
    requires loc.Groups() && |Printed(value, loc)| <= finish <= buffer.Length
    modifies buffer
    ensures start <= finish && buffer[start..finish] == Printed(value, loc)
    ensures forall i :: 0 <= i < buffer.Length && !(start <= i < finish) ==> buffer[i] == old(buffer[i])
  {
    var group, last_grp_size := 0, loc.grouping[0] as int;
    var left: nat := last_grp_size;
    var n, more := value, true;
    start := finish;
    ghost var text := Printed(value, loc);
    while more
      invariant start <= finish && last_grp_size > 0
      invariant text == Ahead(more, n, loc, group, left, last_grp_size) + buffer[start..finish]
      invariant forall i :: 0 <= i < buffer.Length && !(start <= i < finish) ==> buffer[i] == old(buffer[i])
      decreases more, n
    {
      ghost var unfolded := [Digit(n % 10)] + ((if left == 0 then [loc.separator] else "") + buffer[start..finish]);
      TextUnfolds(n, loc, group, left, last_grp_size, buffer[start..finish]);
      start, group, left, last_grp_size := PutSeparator(loc, buffer, start, group, left, last_grp_size, finish);
      left := left - 1;
      start := Prepend(buffer, start, Digit(n % 10), finish);
      assert buffer[start..finish] == unfolded;
      n := n / 10;
      more := n != 0;
    }
  }

  /** The text still to come. */
  ghost function Ahead(more: bool, n: nat, loc: Locale, group: nat, left: nat, size: int): string
    requires loc.Local? && size > 0
  {
    if more then Text(n, loc.grouping, loc.separator, group, left, size) else ""
  }

  lemma DecimalUnfolds(n: nat, behind: string)
    ensures Decimal(n) + behind == (if n < 10 then "" else Decimal(n / 10)) + ([Digit(n % 10)] + behind)
  {
    Regroup(if n < 10 then "" else Decimal(n / 10), Digit(n % 10), "", behind);
  }

  method PutPlain(value: nat, buffer: array<char>, finish: nat) returns (start: nat)
    requires |Decimal(value)| <= finish <= buffer.Length
    modifies buffer
    ensures start <= finish && buffer[start..finish] == Decimal(value)
    ensures forall i :: 0 <= i < buffer.Length && !(start <= i < finish) ==> buffer[i] == old(buffer[i])
  {
    var n, more := value, true;
    start := finish;
    ghost var text := Decimal(value);
    while more
      invariant start <= finish
      invariant text == (if more then Decimal(n) else "") + buffer[start..finish]
      invariant forall i :: 0 <= i < buffer.Length && !(start <= i < finish) ==> buffer[i] == old(buffer[i])
      decreases more, n
    {
      DecimalUnfolds(n, buffer[start..finish]);
      start := Prepend(buffer, start, Digit(n % 10), finish);
      n := n / 10;
      more := n != 0;
    }
  }

  // ---------- how long it can be ----------

  lemma {:induction false} DecimalLength(n: nat, k: nat)
    ensures n < Pow10(k) && k > 0 ==> |Decimal(n)| <= k
    ensures n >= Pow10(k) ==> |Decimal(n)| > k
    decreases n
  {
    if n >= 10 && k > 0 {
      DecimalLength(n / 10, k - 1);
      if k == 1 {
        assert Pow10(1) == 10;
      }
    } else if k > 0 {
      assert Pow10(k) == 10 * Pow10(k - 1);
    }
  }

  lemma {:induction false} TextLength(n: nat, grouping: seq<GroupChar>, separator: char, group: nat, left: nat,
                                      size: int)
    requires size > 0
    ensures |Text(n, grouping, separator, group, left, size)| <= 2 * |Decimal(n)| - (if left == 0 then 0 else 1)
    decreases n
  {
    if n >= 10 {
      var size' := if left == 0 then NextSize(grouping, group + 1, size) else size;
      var left' := (if left == 0 then size' else left) - 1;
      TextLength(n / 10, grouping, separator, if left == 0 then group + 1 else group, left', size');
    }
  }

  lemma PrintedLength(n: nat, digits10: nat, loc: Locale)
    requires n < Pow10(digits10 + 1)
    ensures |Printed(n, loc)| <= 1 + 2 * digits10
  {
    DecimalLength(n, digits10 + 1);
    if loc.Groups() {
      TextLength(n, loc.grouping, loc.separator, 0, loc.grouping[0], loc.grouping[0]);
    }
  }

  /** The buffer suffices: one digit more than `digits10` promises, and a separator for
  each of the others. */
  lemma BufferSuffices(w: Width, n: nat, loc: Locale)
    requires w.Valid() && n < w.values
    ensures |Printed(n, loc)| <= 1 + 2 * w.digits10
  {
    PrintedLength(n, w.digits10, loc);
  }

  lemma {:induction false} SingleGroups(n: nat, separator: char, group: nat, left: nat)
    requires left <= 1
    ensures |Text(n, [1], separator, group, left, 1)| == 2 * |Decimal(n)| - left
    decreases n
  {
    if n >= 10 {
      SingleGroups(n / 10, separator, if left == 0 then group + 1 else group, 0);
    }
  }

  /** And no smaller one would: with groups of one digit the largest value fills it. */
  lemma BufferIsTight(w: Width, separator: char)
    requires w.Valid()
    ensures |Printed(w.values - 1, Local([1], separator))| == 1 + 2 * w.digits10
  {
    DecimalLength(w.values - 1, w.digits10);
    DecimalLength(w.values - 1, w.digits10 + 1);
    SingleGroups(w.values - 1, separator, 0, 1);
  }

  // ---------- what digits mean ----------

  predicate AllDigits(s: string) {
    forall i :: 0 <= i < |s| ==> IsDigit(s[i])
  }

  /** The number that digits spell. */
  function Value(s: string): int {
    if s == "" then 0 else DigitOf(s[0]) * Pow10(|s| - 1) + Value(s[1..])
  }

  /** The digits of a text, without what separates them. */
  function Strip(s: string): (digits: string)
    ensures AllDigits(digits) && |digits| <= |s|
    ensures AllDigits(s) ==> digits == s
  {
    if s == "" then ""
    else (if IsDigit(s[0]) then [s[0]] else "") + Strip(s[1..])
  }

  lemma AtMostNine(d: int, p: nat)
    requires 0 <= d <= 9
    ensures 0 <= d * p <= 9 * p
  {
  }

  lemma {:induction false} ValueBounds(s: string)
    requires AllDigits(s)
    ensures 0 <= Value(s) < Pow10(|s|)
  {
    if s != "" {
      ValueBounds(s[1..]);
      AtMostNine(DigitOf(s[0]), Pow10(|s| - 1));
    }
  }

  lemma {:induction false} ValueAppend(s: string, c: char)
    ensures Value(s + [c]) == 10 * Value(s) + DigitOf(c)
  {
    if s == "" {
      assert (s + [c])[1..] == "";
    } else {
      ValueAppend(s[1..], c);
      assert (s + [c])[1..] == s[1..] + [c];
    }
  }

  /** A longer text of digits spells at least what its end does. */
  lemma {:induction false} ValueOfEnd(front: string, end: string)
    requires AllDigits(front) && AllDigits(end)
    ensures Value(end) <= Value(front + end)
  {
    if front == "" {
      assert front + end == end;
    } else {
      ValueOfEnd(front[1..], end);
      assert (front + end)[1..] == front[1..] + end;
      assert DigitOf(front[0]) * Pow10(|front + end| - 1) >= 0;
    }
  }

  /** The plain text of a number spells it. */
  lemma {:induction false} DecimalSpells(n: nat)
    ensures AllDigits(Decimal(n)) && Value(Decimal(n)) == n
    decreases n
  {
    if n >= 10 {
      DecimalSpells(n / 10);
      ValueAppend(Decimal(n / 10), Digit(n % 10));
    } else {
      assert Decimal(n) == [Digit(n)];
    }
  }

  lemma {:induction false} StripLast(s: string, c: char)
    ensures Strip(s + [c]) == if IsDigit(c) then Strip(s) + [c] else Strip(s)
  {
    if s == "" {
      assert (s + [c])[1..] == "" && Strip("") == "";
    } else {
      StripLast(s[1..], c);
      var t, head := s + [c], if IsDigit(s[0]) then [s[0]] else "";
      assert t[0] == s[0] && t[1..] == s[1..] + [c];
      assert Strip(t) == head + Strip(s[1..] + [c]);
      assert Strip(s) == head + Strip(s[1..]);
    }
  }

  /** Separators are all that grouping adds. */
  lemma {:induction false} TextStripped(n: nat, grouping: seq<GroupChar>, separator: char, group: nat, left: nat,
                                        size: int)
    requires size > 0 && !IsDigit(separator)
    ensures Strip(Text(n, grouping, separator, group, left, size)) == Decimal(n)
    decreases n
  {
    var group' := if left == 0 then group + 1 else group;
    var size' := if left == 0 then NextSize(grouping, group + 1, size) else size;
    var left' := (if left == 0 then size' else left) - 1;
    var front := if n < 10 then "" else Text(n / 10, grouping, separator, group', left', size');
    if n >= 10 {
      TextStripped(n / 10, grouping, separator, group', left', size');
    }
    var text := front + [Digit(n % 10)];
    assert Text(n, grouping, separator, group, left, size) == if left == 0 then text + [separator] else text;
    StripLast(front, Digit(n % 10));
    StripLast(text, separator);
  }

  /** The last `k` digits, zeros included. */
  function Padded(n: nat, k: nat): string {
    if k == 0 then "" else Padded(n / 10, k - 1) + [Digit(n % 10)]
  }

  /** A group that is not the last holds exactly as many digits as its size says, and what
  is left of it is the text of the higher digits, followed by a separator. */
  lemma {:induction false} GroupsHoldTheirSize(n: nat, loc: Locale, group: nat, left: nat, size: int)
    requires loc.Local? && size > 0
    ensures n < Pow10(left) && left > 0 ==>
      Text(n, loc.grouping, loc.separator, group, left, size) == Decimal(n)
    ensures n >= Pow10(left) ==>
      var size' := NextSize(loc.grouping, group + 1, size);
      Text(n, loc.grouping, loc.separator, group, left, size)
      == Text(n / Pow10(left), loc.grouping, loc.separator, group + 1, size', size') + [loc.separator] + Padded(n, left)
    decreases left
  {
    if left > 0 {
      if n < 10 {
        assert Pow10(left) >= 10;
      } else {
        GroupsHoldTheirSize(n / 10, loc, group, left - 1, size);
        DivTwice(n, left);
        if left == 1 {
          assert Padded(n, 1) == [Digit(n % 10)];
        }
      }
    } else {
      assert Padded(n, 0) == "";
    }
  }

  // ---------- printed text, group by group ----------

  /** Groups counted from the right, with a separator in front of each but the last. */
  function Joined(groups: seq<string>, separator: char): string
    requires |groups| > 0
  {
    if |groups| == 1 then groups[0] else Joined(groups[1..], separator) + [separator] + groups[0]
  }

  function Concatenated(groups: seq<string>): string {
    if groups == [] then "" else Concatenated(groups[1..]) + groups[0]
  }

  lemma {:induction false} DecimalSplits(n: nat, k: nat)
    requires n >= Pow10(k)
    ensures Decimal(n) == Decimal(n / Pow10(k)) + Padded(n, k) && |Padded(n, k)| == k
    decreases k
  {
    if k == 0 {
      assert Padded(n, 0) == "";
    } else {
      DivTwice(n, k);
      DecimalSplits(n / 10, k - 1);
      assert n >= 10 && Pow10(k) == 10 * Pow10(k - 1);
    }
  }

  function GroupSize(grouping: seq<GroupChar>, k: nat): nat
    requires |grouping| > 0
  {
    var entry := grouping[if k < |grouping| then k else |grouping| - 1];
    if entry > 0 then entry else CHAR_MAX
  }

  /** The digits of a number in groups: from the right, each but the last holds as many digits as
  its entry in `grouping` says, or the last entry if there are no more; one that is not
  positive stands for `CHAR_MAX`. */
  ghost predicate InGroups(n: nat, grouping: seq<GroupChar>, groups: seq<string>, first: nat)
    requires |grouping| > 0
  {
    && |groups| > 0 && Concatenated(groups) == Decimal(n) && groups[|groups| - 1] != ""
    && (forall k {:trigger groups[k]} :: 0 <= k < |groups| ==>
      var digits := GroupSize(grouping, first + k);
      if k < |groups| - 1 then |groups[k]| == digits else |groups[k]| <= digits)
  }

  lemma {:induction false} TextInGroups(n: nat, loc: Locale, group: nat, size: int) returns (groups: seq<string>)
    requires loc.Local? && |loc.grouping| > 0 && size == GroupSize(loc.grouping, group)
    ensures InGroups(n, loc.grouping, groups, group)
    ensures Text(n, loc.grouping, loc.separator, group, size, size) == Joined(groups, loc.separator)
    decreases n
  {
    var next := NextSize(loc.grouping, group + 1, size);
    SizesFollow(loc.grouping, group);
    hide *;
    GroupsHoldTheirSize(n, loc, group, size, size);
    if n < Pow10(size) {
      DecimalLength(n, size);
      groups := [Decimal(n)];
      LastGroup(n, loc.grouping, group, size);
      JoinedOne(Decimal(n), loc.separator);
    } else {
      Smaller(n, size);
      var more := TextInGroups(n / Pow10(size), loc, group + 1, next);
      groups := [Padded(n, size)] + more;
      OneGroupMore(n, loc.grouping, group, size, more);
      JoinedFurther(Padded(n, size), more, loc.separator);
    }
  }

  lemma SizesFollow(grouping: seq<GroupChar>, k: nat)
    requires |grouping| > 0
    ensures GroupSize(grouping, k) > 0
    ensures NextSize(grouping, k + 1, GroupSize(grouping, k)) == GroupSize(grouping, k + 1)
  {
  }

  lemma JoinedOne(group: string, separator: char)
    ensures Joined([group], separator) == group
  {
  }

  lemma JoinedFurther(group: string, more: seq<string>, separator: char)
    requires |more| > 0
    ensures Joined([group] + more, separator) == Joined(more, separator) + [separator] + group
  {
    assert ([group] + more)[1..] == more;
  }

  lemma LastGroup(n: nat, grouping: seq<GroupChar>, group: nat, size: int)
    requires |grouping| > 0 && |Decimal(n)| <= size == GroupSize(grouping, group)
    ensures InGroups(n, grouping, [Decimal(n)], group)
  {
    assert [Decimal(n)][1..] == [] && Concatenated([]) == "";
  }

  lemma OneGroupMore(n: nat, grouping: seq<GroupChar>, group: nat, size: nat, more: seq<string>)
    requires |grouping| > 0 && size == GroupSize(grouping, group)
    requires n >= Pow10(size) && InGroups(n / Pow10(size), grouping, more, group + 1)
    ensures |more| > 0 && InGroups(n, grouping, [Padded(n, size)] + more, group)
  {
    var groups := [Padded(n, size)] + more;
    DecimalSplits(n, size);
    hide Decimal, Padded, Pow10, GroupSize;
    assert groups[1..] == more && groups[0] == Padded(n, size);
    forall k | 0 < k < |groups|
      ensures groups[k] == more[k - 1] && group + k == group + 1 + (k - 1)
    {
    }
    assert groups[|groups| - 1] == more[|more| - 1];
  }

  lemma Smaller(n: nat, k: nat)
    requires k > 0 && n >= Pow10(k)
    ensures n / Pow10(k) < n
  {
    assert Pow10(k) == 10 * Pow10(k - 1);
  }

  /** Whenever there is a grouping and its first size is positive, a number is printed in groups
  of those sizes, with separators between them. */
  lemma PrintedInGroups(n: nat, loc: Locale) returns (groups: seq<string>)
    requires loc.Local? && |loc.grouping| > 0 && loc.grouping[0] > 0
    ensures |groups| > 0 && Concatenated(groups) == Decimal(n)
    ensures Printed(n, loc) == Joined(groups, loc.separator)
    ensures forall k {:trigger groups[k]} :: 0 <= k < |groups| ==>
      var size := loc.grouping[if k < |loc.grouping| then k else |loc.grouping| - 1];
      var digits := if size > 0 then size else 127;
      if k < |groups| - 1 then |groups[k]| == digits else 0 < |groups[k]| <= digits
  {
    groups := TextInGroups(n, loc, 0, loc.grouping[0]);
  }

  /** In every other locale it is printed as it is. */
  lemma PrintedPlain(n: nat, loc: Locale)
    requires !(loc.Local? && |loc.grouping| > 0 && loc.grouping[0] > 0)
    ensures Printed(n, loc) == Decimal(n)
  {
  }

  /** For instance. */
  lemma PrintedMillions()
    ensures Printed(1234567, Local([3], ',')) == "1,234,567"
    ensures Printed(1234567, Classic) == "1234567"
  {
    DecimalOfMillions();
    hide Text, Decimal;
    ByThrees();
  }

  lemma Commas()
    ensures "1" + [','] + "234" == "1,234" && "1,234" + [','] + "567" == "1,234,567"
  {
  }

  lemma ByThrees()
    ensures Text(1234567, [3], ',', 0, 3, 3) == "1,234,567"
  {
    var loc := Local([3], ',');
    DecimalOfMillions();
    assert NextSize([3], 1, 3) == 3 && NextSize([3], 2, 3) == 3;
    hide *;
    GroupsHoldTheirSize(1234567, loc, 0, 3, 3);
    GroupsHoldTheirSize(1234, loc, 1, 3, 3);
    GroupsHoldTheirSize(1, loc, 2, 3, 3);
    Commas();
  }

  lemma DecimalOfMillions()
    ensures Decimal(1234567) == "1234567" && Decimal(1) == "1"
    ensures Padded(1234567, 3) == "567" && Padded(1234, 3) == "234" && Pow10(3) == 1000
  {
    assert Decimal(1) == "1" && Decimal(12) == "12" && Decimal(123) == "123" && Decimal(1234) == "1234";
    assert Decimal(12345) == "12345" && Decimal(123456) == "123456";
  }

  lemma DivTwice(n: nat, k: nat)
    requires k > 0
    ensures n / 10 / Pow10(k - 1) == n / Pow10(k)
    ensures n / 10 < Pow10(k - 1) <==> n < Pow10(k)
  {
    var p := Pow10(k - 1);
    var q := n / 10 / p;
    assert n / 10 == p * q + n / 10 % p;
    assert n == (10 * p) * q + (10 * (n / 10 % p) + n % 10);
    Remainders.QuotientIsUnique(n / (10 * p), n % (10 * p), q, 10 * (n / 10 % p) + n % 10, 10 * p);
  }
}
