/** The pieces of Python's `str` that the dependency parser relies on:
    `strip()`, `split(',')`, `isdigit()`, `int(...)` of a digit string, and
    the decimal rendering of an activity label `A<k>`. */
module Text {

  /** The characters for which Python's `str.isspace()` holds; `strip()`
      with no argument removes exactly these from both ends. */
  const WhiteSpace: set<char> :=
    {'\t', '\n', '\U{000B}', '\U{000C}', '\r', '\U{001C}', '\U{001D}', '\U{001E}', '\U{001F}',
     ' ', '\U{0085}', '\U{00A0}', '\U{1680}', '\U{2000}', '\U{2001}', '\U{2002}', '\U{2003}',
     '\U{2004}', '\U{2005}', '\U{2006}', '\U{2007}', '\U{2008}', '\U{2009}', '\U{200A}',
     '\U{2028}', '\U{2029}', '\U{202F}', '\U{205F}', '\U{3000}'}

  /** Python's `s.lstrip(chars)`. */
  function StripLeft(s: string, chars: set<char>): (r: string)
    ensures |r| <= |s|
  {
    if |s| > 0 && s[0] in chars then StripLeft(s[1..], chars) else s
  }

  /** Python's `s.rstrip(chars)`. */
  function StripRight(s: string, chars: set<char>): (r: string)
    ensures |r| <= |s|
  {
    if |s| > 0 && s[|s| - 1] in chars then StripRight(s[..|s| - 1], chars) else s
  }

  /** Python's `s.strip(chars)`. */
  function StripChars(s: string, chars: set<char>): (r: string)
    ensures |r| <= |s|
  {
    StripRight(StripLeft(s, chars), chars)
  }

  /** Python's `s.strip()`. */
  function Strip(s: string): (r: string)
    ensures |r| <= |s|
  {
    StripChars(s, WhiteSpace)
  }

  /** What `lstrip` removes is a prefix made of `chars` only, and what
      remains does not start with one of them. */
  lemma {:induction false} StripLeftSpec(s: string, chars: set<char>)
    ensures var r := StripLeft(s, chars);
      r == s[|s| - |r|..] &&
      (forall k :: 0 <= k < |s| - |r| ==> s[k] in chars) &&
      (|r| > 0 ==> r[0] !in chars)
  {
    if |s| > 0 && s[0] in chars {
      StripLeftSpec(s[1..], chars);
    }
  }

  /** Mirror image of StripLeftSpec. */
  lemma {:induction false} StripRightSpec(s: string, chars: set<char>)
    ensures var r := StripRight(s, chars);
      r == s[..|r|] &&
      (forall k :: |r| <= k < |s| ==> s[k] in chars) &&
      (|r| > 0 ==> r[|r| - 1] !in chars)
  {
    if |s| > 0 && s[|s| - 1] in chars {
      StripRightSpec(s[..|s| - 1], chars);
    }
  }

  /** `r` is `s[i..j]` and everything outside it is in `chars`. */
  predicate StripBounds(s: string, chars: set<char>, i: int, j: int, r: string)
  {
    0 <= i <= j <= |s| && r == s[i..j] &&
    (forall k :: 0 <= k < i ==> s[k] in chars) &&
    (forall k :: j <= k < |s| ==> s[k] in chars)
  }

  /** `strip` leaves the part `s[i..j]` of `s` obtained by removing only
      characters of `chars`, and none of them is left at either end. */
  lemma {:induction false} StripSpec(s: string, chars: set<char>)
    ensures var r := StripChars(s, chars); var i := |s| - |StripLeft(s, chars)|;
      StripBounds(s, chars, i, i + |r|, r) &&
      (|r| > 0 ==> r[0] !in chars && r[|r| - 1] !in chars)
  {
    var l := StripLeft(s, chars);
    var r := StripRight(l, chars);
    StripLeftSpec(s, chars);
    StripRightSpec(l, chars);
    var i := |s| - |l|;
    assert |r| > 0 ==> r[0] == l[0];
    assert r == s[i..i + |r|];
    forall k | i + |r| <= k < |s| ensures s[k] in chars {
      assert s[k] == l[k - i];
    }
  }

  /** Python's `s.split(',')`: never empty; consecutive, leading or
      trailing commas give empty pieces. */
  function Split(s: string): (r: seq<string>)
    ensures |r| >= 1
  {
    if |s| == 0 then [""]
    else if s[0] == ',' then [""] + Split(s[1..])
    else
      var rest := Split(s[1..]);
      [[s[0]] + rest[0]] + rest[1..]
  }

  /** Python's `','.join(pieces)`. */
  function Join(pieces: seq<string>): string
  {
    if |pieces| == 0 then ""
    else if |pieces| == 1 then pieces[0]
    else pieces[0] + "," + Join(pieces[1..])
  }

  predicate CommaFree(pieces: seq<string>)
  {
    forall k :: 0 <= k < |pieces| ==> ',' !in pieces[k]
  }

  /** No piece of a split holds a comma. */
  lemma {:induction false} SplitCommaFree(s: string)
    ensures CommaFree(Split(s))
  {
    if |s| > 0 {
      SplitCommaFree(s[1..]);
      var rest := Split(s[1..]);
      if s[0] != ',' {
        assert ',' !in rest[0];
        assert Split(s)[0] == [s[0]] + rest[0];
        assert forall k :: 1 <= k < |Split(s)| ==> Split(s)[k] == rest[k];
      }
    }
  }

  /** Joining the pieces of a split gives back the text. */
  lemma {:induction false} JoinSplit(s: string)
    ensures Join(Split(s)) == s
  {
    if |s| == 0 {
    } else if s[0] == ',' {
      JoinSplit(s[1..]);
      assert s == "" + "," + s[1..];
    } else {
      var rest := Split(s[1..]);
      JoinSplit(s[1..]);
      if |rest| == 1 {
        assert Split(s) == [[s[0]] + rest[0]];
      } else {
        assert Split(s)[1..] == rest[1..];
        assert Join(rest) == rest[0] + "," + Join(rest[1..]);
      }
      assert s == [s[0]] + s[1..];
    }
  }

  /** Splitting a join of comma-free pieces gives back the pieces, so a
      predecessor cell and its list of tokens determine each other. */
  lemma {:induction false} SplitJoin(pieces: seq<string>)
    requires |pieces| >= 1 && CommaFree(pieces)
    ensures Split(Join(pieces)) == pieces
  {
    if |pieces| == 1 {
      SplitPiece(pieces[0], []);
    } else {
      assert CommaFree(pieces[1..]) by {
        assert forall k :: 0 <= k < |pieces| - 1 ==> pieces[1..][k] == pieces[k + 1];
      }
      SplitJoin(pieces[1..]);
      SplitPiece(pieces[0], pieces[1..]);
    }
  }

  /** Splitting a comma-free piece followed by either nothing or a comma
      and a further text. */
  lemma {:induction false} SplitPiece(p: string, tail: seq<string>)
    requires ',' !in p
    requires |tail| >= 1 ==> Split(Join(tail)) == tail
    ensures |tail| == 0 ==> Split(p) == [p]
    ensures |tail| >= 1 ==> Split(p + "," + Join(tail)) == [p] + tail
  {
    if |p| == 0 {
      if |tail| >= 1 {
        assert p + "," + Join(tail) == [','] + Join(tail);
      }
    } else {
      assert p == [p[0]] + p[1..];
      SplitPiece(p[1..], tail);
      if |tail| >= 1 {
        var t := p + "," + Join(tail);
        assert t[1..] == p[1..] + "," + Join(tail);
      }
    }
  }

  predicate IsDigit(c: char)
  {
    '0' <= c <= '9'
  }

  /** Python's `t.isdigit()`, restricted to the ASCII digits. */
  predicate IsDigits(t: string)
  {
    |t| > 0 && forall k :: 0 <= k < |t| ==> IsDigit(t[k])
  }

  /** Python's `int(t)` on a string of ASCII digits (leading zeros allowed). */
  function DigitsValue(t: string): nat
  {
    if |t| == 0 then 0
    else DigitsValue(t[..|t| - 1]) * 10 + (if IsDigit(t[|t| - 1]) then t[|t| - 1] as int - '0' as int else 0)
  }

  function DigitChar(d: nat): char
    requires d < 10
  {
    ('0' as int + d) as char
  }

  /** The decimal rendering of a natural number, as in an f-string. */
  function NatToString(n: nat): string
  {
    if n < 10 then [DigitChar(n)] else NatToString(n / 10) + [DigitChar(n % 10)]
  }

  /** Rendering then reading back a number is the identity: what the cycle
      message prints is something the predecessor parser reads back. */
  lemma {:induction false} NatToStringRoundTrip(n: nat)
    ensures IsDigits(NatToString(n))
    ensures DigitsValue(NatToString(n)) == n
  {
    var s := NatToString(n);
    if n < 10 {
      assert s[..0] == [];
    } else {
      NatToStringRoundTrip(n / 10);
      var p := NatToString(n / 10);
      assert s == p + [DigitChar(n % 10)];
      assert s[..|s| - 1] == p;
      assert forall k :: 0 <= k < |s| ==> IsDigit(s[k]) by {
        forall k | 0 <= k < |s| ensures IsDigit(s[k]) {
          if k < |p| { assert s[k] == p[k]; }
        }
      }
    }
  }

  /** The label of the activity at 0-based index `u`: "A" and the 1-based
      position. */
  function Label(u: nat): (r: string)
    ensures |r| >= 2 && r[0] == 'A'
    ensures IsDigits(r[1..]) && DigitsValue(r[1..]) == u + 1
  {
    NatToStringRoundTrip(u + 1);
    assert ("A" + NatToString(u + 1))[1..] == NatToString(u + 1);
    "A" + NatToString(u + 1)
  }
}
