/** Signed integers as text: the sign in front of the unsigned text, in two's complement. */
module LexicalSigned {
  import opened Remainders
  import opened LexicalCast
  import opened LexicalParse

  /** A signed type of `2 * half` values next to its unsigned counterpart. */
  datatype Signed = Signed(unsigned: Width, half: nat, digits10: nat) {

    ghost predicate Valid() {
      && unsigned.Valid() && unsigned.values == 2 * half
      && Pow10(digits10) <= half < Pow10(digits10 + 1)
    }

    predicate Has(n: int) {
      0 - half <= n < half
    }

    /** The most characters a value can take: `lcast_src_length`. */
    function SrcLength(): nat {
      1 + 1 + digits10 * 2
    }

    /** The value with the same bits. */
    function FromBits(bits: nat): int {
      if bits < half then bits else bits - unsigned.values
    }
  }

  function Magnitude(n: int): nat {
    if n < 0 then -n else n
  }

  function PrintedSigned(n: int, loc: Locale): string {
    (if n < 0 then "-" else "") + Printed(Magnitude(n), loc)
  }

  // ---------- printing ----------

  /** `static_cast` to the unsigned type, and negation there. */
  function LcastToUnsigned(t: Signed, n: int): (u: nat)
    requires t.Valid() && t.Has(n)
    ensures u == Magnitude(n) < t.unsigned.values
  {
    var uvalue := n % t.unsigned.values;
    MagnitudeInBits(t, n);
    if n < 0 then (0 - uvalue) % t.unsigned.values else uvalue
  }

  lemma MagnitudeInBits(t: Signed, n: int)
    requires t.Valid() && t.Has(n)
    ensures n % t.unsigned.values == if n < 0 then n + t.unsigned.values else n
    ensures n < 0 ==> (0 - n % t.unsigned.values) % t.unsigned.values == -n
  {
    var v := t.unsigned.values;
    if n < 0 {
      ModIs(n, -1, n + v, v);
      ModIs(-(n + v), -1, -n, v);
    } else {
      ModIs(n, 0, n, v);
    }
  }

  lemma SignedLength(t: Signed, n: int, loc: Locale)
    requires t.Valid() && t.Has(n)
    ensures |PrintedSigned(n, loc)| <= t.SrcLength()
  {
    PrintedLength(Magnitude(n), t.digits10, loc);
  }

  /** With groups of one digit the smallest value needs every character of the buffer. */
  lemma SignedBufferIsTight(t: Signed, separator: char)
    requires t.Valid()
    ensures |PrintedSigned(0 - t.half, Local([1], separator))| == t.SrcLength()
  {
    DecimalLength(t.half, t.digits10);
    DecimalLength(t.half, t.digits10 + 1);
    SingleGroups(t.half, separator, 0, 1);
  }

  method ShlSigned(t: Signed, n: int, loc: Locale, buffer: array<char>, finish: nat) returns (start: nat)
    requires t.Valid() && t.Has(n) && t.SrcLength() <= finish <= buffer.Length
    modifies buffer
    ensures start <= finish && buffer[start..finish] == PrintedSigned(n, loc)
    ensures forall i :: 0 <= i < buffer.Length && !(start <= i < finish) ==> buffer[i] == old(buffer[i])
  {
    SignedLength(t, n, loc);
    start := LcastPutUnsigned(t.unsigned, LcastToUnsigned(t, n), loc, buffer, finish);
    if n < 0 {
      start := Prepend(buffer, start, '-', finish);
    }
  }

  // ---------- parsing ----------

  lemma {:induction false} TextStartsWithDigit(n: nat, grouping: seq<GroupChar>, separator: char,
                                               group: nat, left: nat, size: int)
    requires size > 0
    ensures IsDigit(Text(n, grouping, separator, group, left, size)[0])
    decreases n
  {
    if n >= 10 {
      var size' := if left == 0 then NextSize(grouping, group + 1, size) else size;
      var left' := (if left == 0 then size' else left) - 1;
      TextStartsWithDigit(n / 10, grouping, separator, if left == 0 then group + 1 else group, left', size');
    }
  }

  lemma PrintedStartsWithDigit(n: nat, loc: Locale)
    ensures IsDigit(Printed(n, loc)[0])
  {
    if loc.Groups() {
      TextStartsWithDigit(n, loc.grouping, loc.separator, 0, loc.grouping[0], loc.grouping[0]);
    } else {
      DecimalSpells(n);
    }
  }

  function Unsigned(s: string): string {
    if s != "" && (s[0] == '-' || s[0] == '+') then s[1..] else s
  }

  /** The parser of a signed type. `n` is any value the text may have been printed from. In
  any locale the text is accepted exactly if, its sign apart, the unsigned parser accepts it and
  the number is in range; that is exact for texts of at most one digit more than the unsigned
  type's `digits10`. Without a digit at its end no text is accepted. */
  method ShrSigned(t: Signed, loc: Locale, s: string, ghost n: int) returns (ok: bool, output: int)
    requires t.Valid() && (loc.Local? ==> !IsDigit(loc.separator))
    ensures ok ==> t.Has(output)
    ensures ok ==> var u := Unsigned(s); u != "" && IsDigit(u[|u| - 1])
    ensures !loc.Groups() && |Unsigned(s)| <= t.unsigned.digits10 + 1 ==>
      var u, v, minus := Unsigned(s), Value(Unsigned(s)), s != "" && s[0] == '-';
      && (ok <==> u != "" && AllDigits(u) && (if minus then v <= t.half else v < t.half))
      && (ok ==> output == if minus then -v else v)
    ensures var minus := s != "" && s[0] == '-';
      var u := if minus || (s != "" && s[0] == '+') then s[1..] else s;
      var r := Plain(t.unsigned, if loc.Groups() then Strip(u) else u);
      && (ok <==>
          && r.Some? && (if minus then r.value <= t.half else r.value < t.half)
          && (loc.Groups() ==> GroupsStand(loc, u)))
      && (ok ==> output == if minus then 0 - r.value else r.value)
    ensures loc.Groups() && |Strip(Unsigned(s))| <= t.unsigned.digits10 + 1 ==>
      var v, minus := Value(Strip(Unsigned(s))), s != "" && s[0] == '-';
      && (ok <==> GroupsStand(loc, Unsigned(s)) && (if minus then v <= t.half else v < t.half))
      && (ok ==> output == if minus then -v else v)
    ensures t.Has(n) && s == PrintedSigned(n, loc) ==> ok && output == n
  {
    hide GroupsStand, Strip, Value, Printed, Plain, AllDigits, Signed.Valid, Signed.FromBits;
    SignApart(n, loc);
    Halves(t);
    NothingIsPlain(t.unsigned);
    if s == "" {
      if loc.Groups() {
        NothingInGroups(loc);
      }
      return false, 0;
    }
    var hasMinus, start := false, 0;
    if s[0] == '-' {
      start, hasMinus := 1, true;
    } else if s[0] == '+' {
      start := 1;
    }
    assert s[start..] == Unsigned(s);
    var succeed, outTmp := LcastRetUnsigned(t.unsigned, loc, s[start..], Magnitude(n));
    if hasMinus {
      ok := succeed && outTmp <= t.half;
      NegatedBits(t, outTmp);
      output := t.FromBits((0 - outTmp) % t.unsigned.values);
    } else {
      ok := succeed && outTmp <= t.half - 1;
      PlainBits(t, outTmp);
      output := t.FromBits(outTmp);
    }
  }

  lemma NothingIsPlain(w: Width)
    requires w.Valid()
    ensures Plain(w, "").None? && Strip("") == ""
  {
  }

  lemma NothingInGroups(loc: Locale)
    requires loc.Groups()
    ensures !GroupsStand(loc, "")
  {
  }

  lemma Halves(t: Signed)
    requires t.Valid()
    ensures t.unsigned.Valid() && t.unsigned.values == 2 * t.half && t.half > 0
  {
  }

  lemma PlainBits(t: Signed, u: nat)
    ensures u < t.half ==> t.FromBits(u) == u
  {
  }

  /** The sign is what comes before the first digit. */
  lemma SignApart(n: int, loc: Locale)
    ensures var s := PrintedSigned(n, loc);
      && s != "" && (s[0] == '-' <==> n < 0) && s[0] != '+' && Unsigned(s) == Printed(Magnitude(n), loc)
  {
    PrintedStartsWithDigit(Magnitude(n), loc);
    if n < 0 {
      assert PrintedSigned(n, loc)[1..] == Printed(Magnitude(n), loc);
    } else {
      assert PrintedSigned(n, loc) == Printed(Magnitude(n), loc);
    }
  }

  lemma NegatedBits(t: Signed, u: nat)
    requires t.Valid() && u < t.unsigned.values
    ensures u <= t.half ==> t.FromBits((0 - u) % t.unsigned.values) == 0 - u
  {
    var v := t.unsigned.values;
    if u > 0 {
      ModIs(0 - u, -1, v - u, v);
    } else {
      ModIs(0, 0, 0, v);
    }
  }

  // ---------- the round trip ----------

  /** Through a buffer of the size the library reserves, every value comes back: under every
  grouping, the smallest value included. */
  method ToTextAndBack(t: Signed, n: int, loc: Locale) returns (ok: bool, back: int)
    requires t.Valid() && t.Has(n) && (loc.Local? ==> !IsDigit(loc.separator))
    ensures ok && back == n
  {
    var buffer := new char[t.SrcLength()];
    var start := ShlSigned(t, n, loc, buffer, buffer.Length);
    ok, back := ShrSigned(t, loc, buffer[start..buffer.Length], n);
  }
}
