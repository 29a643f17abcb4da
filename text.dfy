/** The JavaScript string operations the controllers rely on: `trim`,
    `toLowerCase`, `includes`, and the decimal rendering of a number used when
    building ids. */
module Text {

  /** The characters `String.prototype.trim` removes: ECMAScript WhiteSpace
      (tab, vertical tab, form feed, space, no-break space, byte order mark and
      the other Unicode space separators) and LineTerminator. */
  predicate IsWhitespace(c: char)
  {
    var u := c as int;
    u == 0x09 || u == 0x0B || u == 0x0C || u == 0x20 || u == 0xA0 || u == 0xFEFF
    || u == 0x0A || u == 0x0D || u == 0x2028 || u == 0x2029
    || u == 0x1680 || (0x2000 <= u <= 0x200A) || u == 0x202F || u == 0x205F || u == 0x3000
  }

  /** Number of leading whitespace characters. */
  function LeadingSpace(s: string): (n: nat)
    ensures n <= |s|
    ensures forall k :: 0 <= k < n ==> IsWhitespace(s[k])
    ensures n == |s| || !IsWhitespace(s[n])
  {
    if s == [] || !IsWhitespace(s[0]) then 0 else 1 + LeadingSpace(s[1..])
  }

  /** Number of trailing whitespace characters. */
  function TrailingSpace(s: string): (n: nat)
    ensures n <= |s|
    ensures forall k :: |s| - n <= k < |s| ==> IsWhitespace(s[k])
    ensures n == |s| || !IsWhitespace(s[|s| - n - 1])
  {
    if s == [] || !IsWhitespace(s[|s| - 1]) then 0 else 1 + TrailingSpace(s[..|s| - 1])
  }

  /** Cutting `s` down to `s[i..j]` removes only whitespace. */
  ghost predicate CutsOnlySpace(s: string, i: int, j: int)
  {
    0 <= i <= j <= |s|
    && (forall k :: 0 <= k < i ==> IsWhitespace(s[k]))
    && (forall k :: j <= k < |s| ==> IsWhitespace(s[k]))
  }

  /** `String.prototype.trim`: the slice of `s` left once leading and trailing
      whitespace are cut off (TrimSpec). */
  function Trim(s: string): (r: string)
    ensures |r| <= |s|
  {
    var lead := LeadingSpace(s);
    if lead == |s| then []
    else
      var rest := s[lead..];
      var trail := TrailingSpace(rest);
      assert trail < |rest| by {
        assert !IsWhitespace(rest[0]);
      }
      rest[..|rest| - trail]
  }

  /** Trimming cuts only whitespace, and what is left neither starts nor ends
      with whitespace. */
  lemma TrimSpec(s: string)
    ensures Trim(s) == [] || (!IsWhitespace(Trim(s)[0]) && !IsWhitespace(Trim(s)[|Trim(s)| - 1]))
    ensures exists i, j :: CutsOnlySpace(s, i, j) && Trim(s) == s[i..j]
  {
    var lead := LeadingSpace(s);
    if lead == |s| {
      assert CutsOnlySpace(s, |s|, |s|);
    } else {
      var rest := s[lead..];
      var trail := TrailingSpace(rest);
      assert !IsWhitespace(rest[0]);
      assert CutsOnlySpace(s, lead, |s| - trail);
      assert Trim(s) == s[lead..|s| - trail];
    }
  }

  /** A search string is blank after trimming exactly when it is all whitespace. */
  lemma TrimEmptyIffBlank(s: string)
    ensures Trim(s) == [] <==> forall k :: 0 <= k < |s| ==> IsWhitespace(s[k])
  {
    var lead := LeadingSpace(s);
    if lead < |s| {
      var rest := s[lead..];
      assert !IsWhitespace(rest[0]);
      assert Trim(s)[0] == rest[0];
    }
  }

  function LowerChar(c: char): char
  {
    if 'A' <= c <= 'Z' then (c as int + 32) as char else c
  }

  /** `String.prototype.toLowerCase` on the ASCII letters. */
  function Lower(s: string): (r: string)
    ensures |r| == |s|
    ensures forall k :: 0 <= k < |s| ==> r[k] == LowerChar(s[k])
  {
    if s == [] then [] else [LowerChar(s[0])] + Lower(s[1..])
  }

  /** `String.prototype.includes`: does `needle` occur in `hay` starting at some
      position (the empty needle occurs everywhere). */
  function Contains(hay: string, needle: string): bool
    decreases |hay|
  {
    if |needle| <= |hay| && hay[..|needle|] == needle then true
    else if hay == [] then false
    else Contains(hay[1..], needle)
  }

  ghost predicate OccursAt(hay: string, needle: string, i: int)
  {
    0 <= i && i + |needle| <= |hay| && hay[i..i + |needle|] == needle
  }

  /** `Contains` is the substring relation. */
  lemma {:induction false} ContainsIsSubstring(hay: string, needle: string)
    ensures Contains(hay, needle) <==> exists i :: OccursAt(hay, needle, i)
    decreases |hay|
  {
    if |needle| <= |hay| && hay[..|needle|] == needle {
      assert OccursAt(hay, needle, 0);
    } else if hay == [] {
    } else {
      ContainsIsSubstring(hay[1..], needle);
      if exists i :: OccursAt(hay, needle, i) {
        var i :| OccursAt(hay, needle, i);
        assert i != 0;
        assert hay[1..][i - 1..i - 1 + |needle|] == hay[i..i + |needle|];
        assert OccursAt(hay[1..], needle, i - 1);
      }
      if Contains(hay[1..], needle) {
        var i :| OccursAt(hay[1..], needle, i);
        assert hay[1..][i..i + |needle|] == hay[i + 1..i + 1 + |needle|];
        assert OccursAt(hay, needle, i + 1);
      }
    }
  }

  function DigitChar(d: nat): char
    requires d < 10
  {
    ('0' as int + d) as char
  }

  /** `Number.prototype.toString()` for a non-negative integer. */
  function Decimal(n: nat): (s: string)
    ensures |s| >= 1
    decreases n
  {
    if n < 10 then [DigitChar(n)] else Decimal(n / 10) + [DigitChar(n % 10)]
  }

  function DigitValue(c: char): nat
  {
    if '0' <= c <= '9' then c as int - '0' as int else 0
  }

  /** Reading decimal digits back into a number. */
  function ParseDecimal(s: string): nat
    decreases |s|
  {
    if s == [] then 0 else 10 * ParseDecimal(s[..|s| - 1]) + DigitValue(s[|s| - 1])
  }

  /** Decimal rendering loses nothing, so distinct numbers render differently. */
  lemma {:induction false} ParseDecimalOfDecimal(n: nat)
    ensures ParseDecimal(Decimal(n)) == n
    decreases n
  {
    var s := Decimal(n);
    if n >= 10 {
      ParseDecimalOfDecimal(n / 10);
      assert s[..|s| - 1] == Decimal(n / 10);
    }
  }

  lemma DecimalInjective(a: nat, b: nat)
    requires Decimal(a) == Decimal(b)
    ensures a == b
  {
    ParseDecimalOfDecimal(a);
    ParseDecimalOfDecimal(b);
  }

  /** Numbers from 1000 on have at least four digits. */
  lemma {:induction false} DecimalLength(n: nat)
    ensures n >= 1000 ==> |Decimal(n)| >= 4
    decreases n
  {
    if n >= 10 {
      DecimalLength(n / 10);
      if n >= 1000 {
        assert n / 10 >= 100;
        assert |Decimal(n / 10 / 10)| >= 1;
        assert |Decimal(n / 10)| >= 3 by {
          var m := n / 10;
          assert m >= 10 && m / 10 >= 10;
        }
      }
    }
  }

  /** `String.prototype.substr(-k)`: the last `k` characters, or all of a
      shorter string. */
  function LastChars(s: string, k: nat): (r: string)
    ensures |r| == if |s| < k then |s| else k
    ensures r == s[|s| - |r|..]
  {
    if |s| <= k then s else s[|s| - k..]
  }
}
