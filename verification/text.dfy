/** Text operations the supervisor relies on: JavaScript's case-sensitive
    `String.prototype.includes`, and the decimal rendering a template literal
    gives an integer, together with a parser that inverts it. */
module Text {

  import opened Wrappers

  predicate StartsWith(s: string, prefix: string)
  {
    |prefix| <= |s| && s[..|prefix|] == prefix
  }

  /** Reference definition: `needle` occurs in `hay` starting at index `i`. */
  ghost predicate OccursAt(hay: string, needle: string, i: int)
  {
    0 <= i && i + |needle| <= |hay| && hay[i..i + |needle|] == needle
  }

  ghost predicate Occurs(hay: string, needle: string)
  {
    exists i :: OccursAt(hay, needle, i)
  }

  /** `hay.includes(needle)`: scans every starting position from the left.
      Like JavaScript, every string includes the empty string. */
  predicate Includes(hay: string, needle: string)
    decreases |hay|
  {
    StartsWith(hay, needle) || (|hay| > 0 && Includes(hay[1..], needle))
  }

  /** Every scan success names a position where the needle occurs. */
  lemma {:induction false} IncludesHasOccurrence(hay: string, needle: string)
    requires Includes(hay, needle)
    ensures Occurs(hay, needle)
    decreases |hay|
  {
    if StartsWith(hay, needle) {
      assert hay[0..|needle|] == hay[..|needle|];
      assert OccursAt(hay, needle, 0);
    } else {
      var tail := hay[1..];
      IncludesHasOccurrence(tail, needle);
      var i :| OccursAt(tail, needle, i);
      assert hay[i + 1..i + 1 + |needle|] == tail[i..i + |needle|];
      assert OccursAt(hay, needle, i + 1);
    }
  }

  /** The scan finds every occurrence, wherever it starts. */
  lemma {:induction false} OccurrenceIsIncluded(hay: string, needle: string, i: int)
    requires OccursAt(hay, needle, i)
    ensures Includes(hay, needle)
    decreases i
  {
    if i == 0 {
      assert hay[..|needle|] == hay[0..|needle|];
    } else {
      var tail := hay[1..];
      assert tail[i - 1..i - 1 + |needle|] == hay[i..i + |needle|];
      OccurrenceIsIncluded(tail, needle, i - 1);
    }
  }

  /** The scanning definition agrees with the positional one, both ways. */
  lemma IncludesIffOccurs(hay: string, needle: string)
    ensures Includes(hay, needle) <==> Occurs(hay, needle)
  {
    if Includes(hay, needle) {
      IncludesHasOccurrence(hay, needle);
    }
    if Occurs(hay, needle) {
      var i :| OccursAt(hay, needle, i);
      OccurrenceIsIncluded(hay, needle, i);
    }
  }

  // ----- letter case -----

  predicate IsUpper(c: char)
  {
    'A' <= c <= 'Z'
  }

  predicate NoUpper(s: string)
  {
    forall k :: 0 <= k < |s| ==> !IsUpper(s[k])
  }

  /** ASCII lower-casing of one character. */
  function LowerChar(c: char): (l: char)
    ensures !IsUpper(l)
    ensures IsUpper(c) ==> l as int == c as int + 32
    ensures !IsUpper(c) ==> l == c
  {
    if IsUpper(c) then (c as int + 32) as char else c
  }

  function ToLower(s: string): (r: string)
    ensures |r| == |s| && NoUpper(r)
    ensures forall k :: 0 <= k < |s| ==> r[k] == LowerChar(s[k])
  {
    seq(|s|, k requires 0 <= k < |s| => LowerChar(s[k]))
  }

  /** A needle with a capital letter never occurs in a text without one. */
  lemma UpperBlocksOccurrence(hay: string, needle: string, u: int)
    requires NoUpper(hay)
    requires 0 <= u < |needle| && IsUpper(needle[u])
    ensures !Occurs(hay, needle)
  {
    forall i | OccursAt(hay, needle, i)
      ensures hay[i + u] == needle[u]
    {
      assert hay[i..i + |needle|][u] == hay[i + u];
    }
  }

  // ----- decimal rendering -----

  predicate IsDigit(c: char)
  {
    '0' <= c <= '9'
  }

  predicate AllDigits(s: string)
  {
    forall k :: 0 <= k < |s| ==> IsDigit(s[k])
  }

  function DigitChar(d: nat): (c: char)
    requires d < 10
    ensures IsDigit(c)
  {
    ('0' as int + d) as char
  }

  function DigitValue(c: char): (d: nat)
    requires IsDigit(c)
    ensures d < 10
    ensures DigitChar(d) == c
  {
    c as int - '0' as int
  }

  /** Decimal digits of `n`, most significant first, without leading zeros. */
  function DecimalDigits(n: nat): (s: string)
    ensures |s| > 0 && AllDigits(s)
    decreases n
  {
    if n < 10 then [DigitChar(n)] else DecimalDigits(n / 10) + [DigitChar(n % 10)]
  }

  /** Value of a string of decimal digits, read left to right. */
  function ParseDigits(s: string): (n: nat)
    requires AllDigits(s)
    decreases |s|
  {
    if |s| == 0 then 0 else 10 * ParseDigits(s[..|s| - 1]) + DigitValue(s[|s| - 1])
  }

  lemma {:induction false} ParseDecimalDigits(n: nat)
    ensures ParseDigits(DecimalDigits(n)) == n
    decreases n
  {
    var s := DecimalDigits(n);
    if n >= 10 {
      ParseDecimalDigits(n / 10);
      assert s[..|s| - 1] == DecimalDigits(n / 10);
    }
  }

  /** `${n}` for an integer `n` (decimal, with a leading '-' when negative). */
  function IntToString(n: int): (s: string)
    ensures |s| > 0 && (IsDigit(s[0]) || s[0] == '-')
  {
    if n < 0 then "-" + DecimalDigits(-n) else DecimalDigits(n)
  }

  /** Reads back an optionally negative decimal integer; None for anything else. */
  function ParseInt(s: string): (r: Option<int>)
    ensures r.Some? ==> |s| > 0
  {
    if |s| > 1 && s[0] == '-' && AllDigits(s[1..]) then
      var magnitude: int := ParseDigits(s[1..]);
      Some(-magnitude)
    else if |s| > 0 && AllDigits(s) then Some(ParseDigits(s))
    else None
  }

  lemma ParseIntToString(n: int)
    ensures ParseInt(IntToString(n)) == Some(n)
  {
    var s := IntToString(n);
    if n < 0 {
      assert s[1..] == DecimalDigits(-n);
      ParseDecimalDigits(-n);
    } else {
      ParseDecimalDigits(n);
    }
  }

  /** The prefix of `s` up to (not including) its first occurrence of `sep`. */
  function TakeUntil(s: string, sep: char): (r: string)
    ensures StartsWith(s, r)
    ensures forall k :: 0 <= k < |r| ==> r[k] != sep
    ensures |r| < |s| ==> s[|r|] == sep
    decreases |s|
  {
    if |s| == 0 || s[0] == sep then [] else [s[0]] + TakeUntil(s[1..], sep)
  }

  lemma {:induction false} TakeUntilConcat(field: string, sep: char, rest: string)
    requires forall k :: 0 <= k < |field| ==> field[k] != sep
    requires |rest| > 0 && rest[0] == sep
    ensures TakeUntil(field + rest, sep) == field
    decreases |field|
  {
    if |field| > 0 {
      assert (field + rest)[1..] == field[1..] + rest;
      TakeUntilConcat(field[1..], sep, rest);
    } else {
      assert field + rest == rest;
    }
  }
}
