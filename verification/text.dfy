/**
 * String operations the chat code relies on, with the semantics of the
 * Python and JavaScript builtins it calls: `split` on a separator, `join`,
 * `in` on strings, `strip`/`trim`, ASCII `lower`, decimal formatting of an
 * integer and JavaScript's `parseInt` restricted to decimal digits.
 */
module Text {
  import opened Wrappers

  /** `sep.join(parts)`. */
  function Join(parts: seq<string>, sep: string): string
  {
    if |parts| == 0 then ""
    else if |parts| == 1 then parts[0]
    else parts[0] + sep + Join(parts[1..], sep)
  }

  /**
   * `s.split(sep)` (Python) and `s.split(sep)` (JavaScript) for a non-empty
   * separator: the pieces between the leftmost non-overlapping occurrences.
   */
  function Split(s: string, sep: string): (parts: seq<string>)
    requires |sep| > 0
    ensures |parts| >= 1
    ensures Join(parts, sep) == s
  {
    SplitFrom(s, sep, "")
  }

  /** Splits `s`, with `cur` the piece already begun to its left. */
  function SplitFrom(s: string, sep: string, cur: string): (parts: seq<string>)
    requires |sep| > 0
    ensures |parts| >= 1
    ensures Join(parts, sep) == cur + s
    decreases |s|
  {
    if |s| == 0 then [cur]
    else if |sep| <= |s| && s[..|sep|] == sep then
      var rest := SplitFrom(s[|sep|..], sep, "");
      assert s == sep + s[|sep|..];
      assert ([cur] + rest)[1..] == rest;
      [cur] + rest
    else
      assert s == [s[0]] + s[1..];
      SplitFrom(s[1..], sep, cur + [s[0]])
  }

  lemma {:induction false} SplitFromPlain(p: string, rest: string, sep: string, cur: string)
    requires |sep| > 0
    requires sep[0] !in p
    ensures SplitFrom(p + rest, sep, cur) == SplitFrom(rest, sep, cur + p)
    decreases |p|
  {
    if |p| == 0 {
      assert p + rest == rest;
      assert cur + p == cur;
    } else {
      var s := p + rest;
      assert s[0] == p[0] != sep[0];
      assert |sep| <= |s| ==> s[..|sep|][0] == p[0];
      assert s[1..] == p[1..] + rest;
      SplitFromPlain(p[1..], rest, sep, cur + [p[0]]);
      assert cur + [p[0]] + p[1..] == cur + p;
    }
  }

  lemma SplitFromAtSep(rest: string, sep: string, cur: string)
    requires |sep| > 0
    ensures SplitFrom(sep + rest, sep, cur) == [cur] + SplitFrom(rest, sep, "")
  {
    var s := sep + rest;
    assert s[..|sep|] == sep;
    assert s[|sep|..] == rest;
  }

  /** No string in `parts` holds `c`. */
  predicate NoneContain(parts: seq<string>, c: char)
  {
    forall i :: 0 <= i < |parts| ==> c !in parts[i]
  }

  lemma NoneContainConcat(a: seq<string>, b: seq<string>, c: char)
    requires NoneContain(a, c) && NoneContain(b, c)
    ensures NoneContain(a + b, c)
  {
    forall i | 0 <= i < |a + b|
      ensures c !in (a + b)[i]
    {
      if i >= |a| {
        assert (a + b)[i] == b[i - |a|];
      }
    }
  }

  /** Splitting a join gives the parts back when no part holds the separator's first character. */
  lemma {:induction false} SplitJoin(parts: seq<string>, sep: string)
    requires |sep| > 0 && |parts| >= 1
    requires NoneContain(parts, sep[0])
    ensures Split(Join(parts, sep), sep) == parts
  {
    SplitFromJoin(parts, sep, "");
    assert "" + parts[0] == parts[0];
    assert [parts[0]] + parts[1..] == parts;
  }

  lemma {:induction false} SplitFromJoin(parts: seq<string>, sep: string, cur: string)
    requires |sep| > 0 && |parts| >= 1
    requires NoneContain(parts, sep[0])
    ensures SplitFrom(Join(parts, sep), sep, cur) == [cur + parts[0]] + parts[1..]
    decreases |parts|
  {
    if |parts| == 1 {
      SplitFromPlain(parts[0], "", sep, cur);
      assert parts[0] + "" == parts[0];
      assert parts[1..] == [];
    } else {
      var tail := Join(parts[1..], sep);
      assert Join(parts, sep) == parts[0] + (sep + tail);
      SplitFromPlain(parts[0], sep + tail, sep, cur);
      SplitFromAtSep(tail, sep, cur + parts[0]);
      SplitFromJoin(parts[1..], sep, "");
      assert "" + parts[1..][0] == parts[1];
      assert [parts[1]] + parts[1..][1..] == parts[1..];
    }
  }

  /** Joining pieces that avoid `c` with a separator that avoids `c` gives a string that avoids `c`. */
  lemma {:induction false} JoinAvoids(parts: seq<string>, sep: string, c: char)
    requires NoneContain(parts, c) && c !in sep
    ensures c !in Join(parts, sep)
  {
    if |parts| > 1 {
      JoinAvoids(parts[1..], sep, c);
      assert c !in parts[0];
    } else if |parts| == 1 {
      assert c !in parts[0];
    }
  }

  /** A string with no `sep` character in it splits into itself alone. */
  lemma SplitWhole(s: string, c: char)
    requires c !in s
    ensures Split(s, [c]) == [s]
  {
    SplitJoin([s], [c]);
  }

  /** No piece of a split on a one-character separator holds that character. */
  lemma SplitPiecesAvoid(s: string, c: char)
    ensures forall i :: 0 <= i < |Split(s, [c])| ==> c !in Split(s, [c])[i]
  {
    SplitFromPiecesAvoid(s, c, "");
  }

  lemma {:induction false} SplitFromPiecesAvoid(s: string, c: char, cur: string)
    requires c !in cur
    ensures forall i :: 0 <= i < |SplitFrom(s, [c], cur)| ==> c !in SplitFrom(s, [c], cur)[i]
    decreases |s|
  {
    if |s| == 0 {
    } else if 1 <= |s| && s[..1] == [c] {
      SplitFromPiecesAvoid(s[1..], c, "");
    } else {
      assert s[0] != c by { assert s[..1] == [s[0]]; }
      SplitFromPiecesAvoid(s[1..], c, cur + [s[0]]);
    }
  }

  /** The number of occurrences of `c` in `s`. */
  function CountChar(s: string, c: char): nat
  {
    if |s| == 0 then 0 else (if s[0] == c then 1 else 0) + CountChar(s[1..], c)
  }

  /** Splitting on one character gives one piece more than there are occurrences of it. */
  lemma SplitLength(s: string, c: char)
    ensures |Split(s, [c])| == CountChar(s, c) + 1
  {
    SplitFromLength(s, c, "");
  }

  lemma {:induction false} SplitFromLength(s: string, c: char, cur: string)
    ensures |SplitFrom(s, [c], cur)| == CountChar(s, c) + 1
    decreases |s|
  {
    if |s| > 0 {
      if s[..1] == [c] {
        SplitFromLength(s[1..], c, "");
      } else {
        assert s[0] != c by { assert s[..1] == [s[0]]; }
        SplitFromLength(s[1..], c, cur + [s[0]]);
      }
    }
  }

  lemma JoinThree(a: string, b: string, c: string, sep: string)
    ensures Join([a, b, c], sep) == a + (sep + (b + (sep + c)))
  {
    assert [a] + [b, c] == [a, b, c];
    assert [b] + [c] == [b, c];
    JoinCons(a, [b, c], sep);
    JoinCons(b, [c], sep);
  }

  /**
   * The first two fields of a string that begins with two `c`-free fields
   * are those fields, whatever follows them (more separators included).
   */
  lemma SplitTwoFields(a: string, b: string, rest: string, c: char)
    requires c !in a && c !in b
    ensures Split(Join([a, b, rest], [c]), [c]) == [a, b] + Split(rest, [c])
  {
    var sep := [c];
    JoinThree(a, b, rest, sep);
    SplitFromPlain(a, sep + (b + (sep + rest)), sep, "");
    assert "" + a == a;
    SplitFromAtSep(b + (sep + rest), sep, a);
    SplitFromPlain(b, sep + rest, sep, "");
    assert "" + b == b;
    SplitFromAtSep(rest, sep, b);
  }

  predicate IsPrefix(p: string, s: string)
  {
    |p| <= |s| && s[..|p|] == p
  }

  /** `needle` occurs in `hay` starting at index `i`. */
  predicate OccursAt(hay: string, needle: string, i: int)
  {
    0 <= i && i + |needle| <= |hay| && hay[i..i + |needle|] == needle
  }

  /** Python's `needle in hay` on strings. */
  function Contains(hay: string, needle: string): (b: bool)
    ensures b <==> exists i :: OccursAt(hay, needle, i)
    decreases |hay|
  {
    if IsPrefix(needle, hay) then
      assert OccursAt(hay, needle, 0);
      true
    else if |hay| == 0 then
      assert forall i :: !OccursAt(hay, needle, i);
      false
    else
      var r := Contains(hay[1..], needle);
      OccursShift(hay, needle);
      r
  }

  lemma OccursShift(hay: string, needle: string)
    requires |hay| > 0 && !IsPrefix(needle, hay)
    ensures (exists i :: OccursAt(hay, needle, i)) <==> (exists i :: OccursAt(hay[1..], needle, i))
  {
    forall i | OccursAt(hay, needle, i)
      ensures OccursAt(hay[1..], needle, i - 1)
    {
      assert i != 0;
      assert hay[1..][i - 1..i - 1 + |needle|] == hay[i..i + |needle|];
    }
    forall i | OccursAt(hay[1..], needle, i)
      ensures OccursAt(hay, needle, i + 1)
    {
      assert hay[1..][i..i + |needle|] == hay[i + 1..i + 1 + |needle|];
    }
  }

  /** The index of the first `c` in `s`, if any (the split point of `s.split(c, 1)`). */
  function IndexOf(s: string, c: char): (r: Option<nat>)
    ensures r.None? <==> c !in s
    ensures r.Some? ==> r.value < |s| && s[r.value] == c && c !in s[..r.value]
  {
    if |s| == 0 then None
    else if s[0] == c then
      assert s[..0] == [];
      Some(0)
    else
      match IndexOf(s[1..], c)
      case None => None
      case Some(i) =>
        assert s[..i + 1] == [s[0]] + s[1..][..i];
        Some(i + 1)
  }

  /** Python `str.isspace` on one character. */
  predicate IsPySpace(ch: char)
  {
    || ('\t' <= ch <= '\r') || ch == ' '
    || ('\U{1c}' <= ch <= '\U{1f}') || ch == '\U{85}' || ch == '\U{a0}'
    || ch == '\U{1680}' || ('\U{2000}' <= ch <= '\U{200a}')
    || ch == '\U{2028}' || ch == '\U{2029}' || ch == '\U{202f}'
    || ch == '\U{205f}' || ch == '\U{3000}'
  }

  /** The characters JavaScript's `String.prototype.trim` removes. */
  predicate IsJsSpace(ch: char)
  {
    || ('\t' <= ch <= '\r') || ch == ' ' || ch == '\U{a0}'
    || ch == '\U{1680}' || ('\U{2000}' <= ch <= '\U{200a}')
    || ch == '\U{2028}' || ch == '\U{2029}' || ch == '\U{202f}'
    || ch == '\U{205f}' || ch == '\U{3000}' || ch == '\U{feff}'
  }

  /** Every character of `t` is a `ws` character. */
  predicate AllSpace(t: string, ws: char -> bool)
  {
    forall i :: 0 <= i < |t| ==> ws(t[i])
  }

  function TrimLeft(s: string, ws: char -> bool): (r: string)
    ensures |r| <= |s| && r == s[|s| - |r|..]
    ensures |r| > 0 ==> !ws(r[0])
    ensures AllSpace(s[..|s| - |r|], ws)
  {
    if |s| > 0 && ws(s[0]) then
      var t := s[1..];
      var r := TrimLeft(t, ws);
      assert r == s[|s| - |r|..];
      assert s[..|s| - |r|] == [s[0]] + t[..|t| - |r|];
      r
    else s
  }

  function TrimRight(s: string, ws: char -> bool): (r: string)
    ensures |r| <= |s| && r == s[..|r|]
    ensures |r| > 0 ==> !ws(r[|r| - 1])
    ensures AllSpace(s[|r|..], ws)
  {
    if |s| > 0 && ws(s[|s| - 1]) then
      var t := s[..|s| - 1];
      var r := TrimRight(t, ws);
      assert r == s[..|r|];
      assert s[|r|..] == t[|r|..] + [s[|s| - 1]];
      r
    else s
  }

  /** `r` is `s` with `lo` characters cut from the front and the rest of the surplus from the back, all of them `ws`. */
  predicate CutAt(s: string, r: string, lo: int, ws: char -> bool)
  {
    && 0 <= lo <= |s| - |r|
    && r == s[lo..lo + |r|]
    && AllSpace(s[..lo], ws)
    && AllSpace(s[lo + |r|..], ws)
  }

  /**
   * Removes the longest runs of `ws` characters at both ends: the result
   * neither begins nor ends with `ws`.
   */
  function Trim(s: string, ws: char -> bool): (r: string)
    ensures |r| <= |s|
    ensures |r| > 0 ==> !ws(r[0]) && !ws(r[|r| - 1])
  {
    var left := TrimLeft(s, ws);
    var r := TrimRight(left, ws);
    assert |r| > 0 ==> r[0] == left[0];
    r
  }

  /** What Trim removes is `ws` and nothing else: the result is a contiguous piece of `s` with only `ws` cut off either side. */
  lemma TrimCut(s: string, ws: char -> bool)
    ensures exists lo :: CutAt(s, Trim(s, ws), lo, ws)
  {
    var left := TrimLeft(s, ws);
    var r := TrimRight(left, ws);
    var lo := |s| - |left|;
    assert r == s[lo..lo + |r|] by {
      assert left == s[lo..];
      assert r == left[..|r|];
    }
    assert s[lo + |r|..] == left[|r|..] by {
      assert left == s[lo..];
    }
    assert Trim(s, ws) == r;
    assert CutAt(s, r, lo, ws);
  }

  /** Trimming twice is trimming once. */
  lemma TrimIdempotent(s: string, ws: char -> bool)
    ensures Trim(Trim(s, ws), ws) == Trim(s, ws)
  {
    var r := Trim(s, ws);
    if |r| > 0 {
      assert TrimLeft(r, ws) == r;
      assert TrimRight(r, ws) == r;
    }
  }

  /** Trimming leaves nothing exactly when every character is `ws`. */
  lemma TrimEmpty(s: string, ws: char -> bool)
    ensures Trim(s, ws) == [] <==> AllSpace(s, ws)
  {
    TrimCut(s, ws);
    var lo :| CutAt(s, Trim(s, ws), lo, ws);
    if Trim(s, ws) == [] {
      forall i | 0 <= i < |s|
        ensures ws(s[i])
      {
        if i < lo {
          assert s[..lo][i] == s[i];
        } else {
          assert s[lo..][i - lo] == s[i];
        }
      }
    }
    if AllSpace(s, ws) {
      AllSpaceTrimLeft(s, ws);
    }
  }

  lemma {:induction false} AllSpaceTrimLeft(s: string, ws: char -> bool)
    requires AllSpace(s, ws)
    ensures TrimLeft(s, ws) == []
  {
    if |s| > 0 {
      AllSpaceTrimLeft(s[1..], ws);
    }
  }

  /** Python `s.strip()`. */
  function PyStrip(s: string): string
  {
    Trim(s, IsPySpace)
  }

  /** JavaScript `s.trim()`. */
  function JsTrim(s: string): string
  {
    Trim(s, IsJsSpace)
  }

  function LowerChar(ch: char): char
  {
    if 'A' <= ch <= 'Z' then (ch as int + 32) as char else ch
  }

  /** `s.lower()` on the ASCII letters. */
  function Lower(s: string): (r: string)
    ensures |r| == |s|
  {
    seq(|s|, i requires 0 <= i < |s| => LowerChar(s[i]))
  }

  /** Lower-casing checked character by character. */
  lemma LowerEach(s: string, t: string)
    requires |s| == |t|
    requires forall i :: 0 <= i < |s| ==> LowerChar(s[i]) == t[i]
    ensures Lower(s) == t
  {
  }

  predicate IsDigit(ch: char)
  {
    '0' <= ch <= '9'
  }

  predicate AllDigits(s: string)
  {
    forall i :: 0 <= i < |s| ==> IsDigit(s[i])
  }

  function DigitChar(d: nat): (ch: char)
    requires d < 10
    ensures IsDigit(ch)
  {
    ('0' as int + d) as char
  }

  /** The number a string of decimal digits denotes. */
  function DigitsValue(s: string): nat
    requires AllDigits(s)
  {
    if |s| == 0 then 0
    else DigitsValue(s[..|s| - 1]) * 10 + (s[|s| - 1] as int - '0' as int)
  }

  /** `str(n)` / f"{n}" for a non-negative integer: its shortest decimal spelling. */
  function Decimal(n: nat): (s: string)
    ensures |s| >= 1 && AllDigits(s)
    ensures |s| > 1 ==> s[0] != '0'
    ensures DigitsValue(s) == n
  {
    if n < 10 then [DigitChar(n)]
    else
      var init := Decimal(n / 10);
      var s := init + [DigitChar(n % 10)];
      assert s[..|s| - 1] == init;
      s
  }

  /** The longest prefix of `s` made of decimal digits. */
  function LeadingDigits(s: string): (d: string)
    ensures AllDigits(d) && IsPrefix(d, s)
    ensures |d| < |s| ==> !IsDigit(s[|d|])
  {
    if |s| > 0 && IsDigit(s[0]) then
      var rest := LeadingDigits(s[1..]);
      assert [s[0]] + rest == s[..|rest| + 1];
      [s[0]] + rest
    else []
  }

  /**
   * JavaScript `parseInt(s)` on decimal input: the value of the leading
   * digits, or None (NaN) when `s` does not begin with a digit.
   */
  function ParseInt(s: string): (r: Option<nat>)
    ensures r.None? <==> |s| == 0 || !IsDigit(s[0])
  {
    var d := LeadingDigits(s);
    if |d| == 0 then None else Some(DigitsValue(d))
  }

  lemma {:induction false} LeadingDigitsOfDigits(s: string)
    requires AllDigits(s)
    ensures LeadingDigits(s) == s
  {
    if |s| > 0 {
      LeadingDigitsOfDigits(s[1..]);
      assert [s[0]] + s[1..] == s;
    }
  }

  /** `parseInt(String(n)) == n` on exact integers; the page's double agrees up to 2^53. */
  lemma ParseIntDecimal(n: nat)
    ensures ParseInt(Decimal(n)) == Some(n)
  {
    var s := Decimal(n);
    var d := LeadingDigits(s);
    LeadingDigitsOfDigits(s);
  }

  /** The first `c` in `a + [c] + b`, where `a` has none, is the one after `a`. */
  lemma IndexOfAfter(a: string, c: char, b: string)
    requires c !in a
    ensures IndexOf(a + [c] + b, c) == Some(|a|)
  {
    var s := a + [c] + b;
    assert s[|a|] == c;
    assert forall k :: 0 <= k < |a| ==> s[k] == a[k];
    assert forall m :: |a| < m <= |s| ==> s[..m][|a|] == c;
  }

  lemma JoinCons(p: string, rest: seq<string>, sep: string)
    requires |rest| >= 1
    ensures Join([p] + rest, sep) == p + sep + Join(rest, sep)
  {
    assert ([p] + rest)[1..] == rest;
  }

  /** A string that neither begins nor ends with `ws` is its own trim. */
  lemma TrimUnchanged(s: string, ws: char -> bool)
    requires |s| == 0 || (!ws(s[0]) && !ws(s[|s| - 1]))
    ensures Trim(s, ws) == s
  {
  }

  /** A leading `ws` character does not survive the trim. */
  lemma TrimLeading(ch: char, s: string, ws: char -> bool)
    requires ws(ch)
    ensures Trim([ch] + s, ws) == Trim(s, ws)
  {
    assert ([ch] + s)[1..] == s;
  }
}
