/**
 * Character-level helpers the component relies on through JavaScript built-ins:
 * `String.prototype.split(':')`, the decimal reading done by `Number` and
 * `parseInt(…, 10)`, and the decimal rendering of a number inside a template
 * literal.
 */
module Text {

  import opened Wrappers

  predicate IsDigit(c: char) {
    '0' <= c <= '9'
  }

  predicate AllDigits(s: string) {
    forall i :: 0 <= i < |s| ==> IsDigit(s[i])
  }

  function DigitValue(c: char): nat
    requires IsDigit(c)
  {
    c as int - '0' as int
  }

  function DigitChar(d: nat): (c: char)
    requires d < 10
    ensures IsDigit(c) && DigitValue(c) == d
  {
    ('0' as int + d) as char
  }

  /** The number written by a string of decimal digits, most significant first. */
  function DigitsValue(s: string): nat
    requires AllDigits(s)
  {
    if s == [] then 0 else 10 * DigitsValue(s[..|s| - 1]) + DigitValue(s[|s| - 1])
  }

  /**
   * The shortest decimal text of n, as a template literal renders a
   * non-negative integer below 10^21 (larger ones switch to exponent form).
   */
  function DecimalText(n: nat): (s: string)
    ensures s != [] && AllDigits(s)
    ensures ':' !in s
  {
    if n < 10 then [DigitChar(n)] else DecimalText(n / 10) + [DigitChar(n % 10)]
  }

  /** Reading back the decimal text gives the number again. */
  lemma {:induction false} DecimalTextValue(n: nat)
    ensures DigitsValue(DecimalText(n)) == n
  {
    if n >= 10 {
      DecimalTextValue(n / 10);
      var s := DecimalText(n);
      assert s[..|s| - 1] == DecimalText(n / 10);
    }
  }

  /** Two-digit zero-padded text, the "HH" and "MM" halves of a clock string. */
  function Pad2(n: nat): (s: string)
    requires n < 100
    ensures |s| == 2 && AllDigits(s) && ':' !in s
    ensures DigitsValue(s) == n
  {
    var s := [DigitChar(n / 10), DigitChar(n % 10)];
    assert s[..1] == [DigitChar(n / 10)];
    assert DigitsValue(s[..1]) == n / 10 by {
      assert s[..1][..0] == [];
    }
    s
  }

  /**
   * `s.split(':')`: the maximal colon-free pieces of s, in order. There is
   * always at least one piece, and the empty string splits into [""].
   */
  function SplitColon(s: string): (parts: seq<string>)
    ensures |parts| >= 1
    ensures forall i :: 0 <= i < |parts| ==> ':' !in parts[i]
  {
    if s == [] then [""]
    else
      var rest := SplitColon(s[1..]);
      if s[0] == ':' then [""] + rest
      else [[s[0]] + rest[0]] + rest[1..]
  }

  /**
   * The first piece is the text before the first colon: a prefix of s that
   * is followed by a colon unless it is all of s.
   */
  lemma {:induction false} SplitColonHead(s: string)
    ensures var h := SplitColon(s)[0];
            |h| <= |s| && h == s[..|h|] && (|h| < |s| ==> s[|h|] == ':')
  {
    if s != [] && s[0] != ':' {
      var tail := s[1..];
      SplitColonHead(tail);
      var t := SplitColon(tail)[0];
      assert SplitColon(s)[0] == [s[0]] + t;
      assert s[..|t| + 1] == [s[0]] + tail[..|t|];
      assert |t| < |tail| ==> s[|t| + 1] == tail[|t|];
    }
  }

  /**
   * A string without a colon is one piece; otherwise the pieces are the text
   * before the first colon followed by the pieces of the text after it.
   */
  lemma SplitAtFirstColon(s: string)
    ensures ':' !in s ==> SplitColon(s) == [s]
    ensures ':' in s ==> var h := SplitColon(s)[0];
      |h| < |s| && s[|h|] == ':' && SplitColon(s) == [h] + SplitColon(s[|h| + 1..])
  {
    if ':' in s {
      var h := SplitColon(s)[0];
      SplitColonHead(s);
      assert s == h + ":" + s[|h| + 1..];
      SplitAtColon(h, s[|h| + 1..]);
    } else {
      SplitNoColon(s);
    }
  }

  /** `parts.join(':')`. */
  function JoinColon(parts: seq<string>): string
    requires |parts| >= 1
  {
    if |parts| == 1 then parts[0] else parts[0] + ":" + JoinColon(parts[1..])
  }

  /** Splitting loses nothing: joining the pieces back with ':' gives the input. */
  lemma {:induction false} SplitJoin(s: string)
    ensures JoinColon(SplitColon(s)) == s
  {
    if s != [] {
      var rest := SplitColon(s[1..]);
      SplitJoin(s[1..]);
      if s[0] == ':' {
        assert SplitColon(s)[1..] == rest;
      } else {
        var parts := SplitColon(s);
        assert parts[1..] == rest[1..];
        if |rest| == 1 {
          assert s == [s[0]] + s[1..];
        } else {
          assert s == [s[0]] + (rest[0] + ":" + JoinColon(rest[1..]));
        }
      }
    }
  }

  /** A colon-free prefix is glued to the first piece of what follows it. */
  lemma {:induction false} SplitColonFreePrefix(a: string, rest: string)
    requires ':' !in a
    ensures SplitColon(a + rest) == [a + SplitColon(rest)[0]] + SplitColon(rest)[1..]
  {
    var tail := SplitColon(rest);
    if a == [] {
      assert a + rest == rest;
      assert a + tail[0] == tail[0];
      assert tail == [tail[0]] + tail[1..];
    } else {
      SplitColonFreePrefix(a[1..], rest);
      assert a[0] != ':' by { assert a[0] in a; }
      assert (a + rest)[0] == a[0];
      assert (a + rest)[1..] == a[1..] + rest;
      var r := SplitColon(a[1..] + rest);
      assert r == [a[1..] + tail[0]] + tail[1..];
      assert SplitColon(a + rest) == [[a[0]] + r[0]] + r[1..];
      assert [a[0]] + (a[1..] + tail[0]) == a + tail[0];
    }
  }

  /** The pieces of "a:rest" are a followed by the pieces of rest. */
  lemma SplitAtColon(a: string, rest: string)
    requires ':' !in a
    ensures SplitColon(a + ":" + rest) == [a] + SplitColon(rest)
  {
    var r := ":" + rest;
    SplitColonFreePrefix(a, r);
    assert a + ":" + rest == a + r;
    assert r[0] == ':' && r[1..] == rest;
    assert SplitColon(r) == [""] + SplitColon(rest);
    assert a + "" == a;
  }

  /** A colon-free string is a single piece. */
  lemma SplitNoColon(b: string)
    requires ':' !in b
    ensures SplitColon(b) == [b]
  {
    SplitColonFreePrefix(b, "");
    assert b + "" == b;
  }

  /** The digits at the front of s: what `parseInt(s, 10)` reads. */
  function DigitPrefix(s: string): (p: string)
    ensures |p| <= |s| && p == s[..|p|] && AllDigits(p)
    ensures |p| < |s| ==> !IsDigit(s[|p|])
  {
    if s != [] && IsDigit(s[0]) then [s[0]] + DigitPrefix(s[1..]) else []
  }

  /** A prefix of s that stops at a non-digit, or at the end, has the same leading digits as s. */
  lemma {:induction false} DigitPrefixOfPrefix(p: string, s: string)
    requires |p| <= |s| && p == s[..|p|]
    requires |p| < |s| ==> !IsDigit(s[|p|])
    ensures DigitPrefix(p) == DigitPrefix(s)
  {
    if p == [] {
      assert s != [] ==> !IsDigit(s[0]);
    } else {
      assert p[0] == s[0];
      if IsDigit(p[0]) {
        assert p[1..] == s[1..][..|p| - 1];
        assert |p| < |s| ==> s[1..][|p| - 1] == s[|p|];
        DigitPrefixOfPrefix(p[1..], s[1..]);
      }
    }
  }

  /** The leading digits of digits-then-non-digit text are exactly those digits. */
  lemma {:induction false} DigitPrefixOfDigits(a: string, rest: string)
    requires AllDigits(a)
    requires rest == [] || !IsDigit(rest[0])
    ensures DigitPrefix(a + rest) == a
  {
    if a == [] {
      assert a + rest == rest;
    } else {
      DigitPrefixOfDigits(a[1..], rest);
      assert (a + rest)[1..] == a[1..] + rest;
    }
  }

  /**
   * `parseInt(s, 10)`: the value of the leading digits, or None where
   * JavaScript yields NaN because there are none.
   */
  function ParseInt(s: string): (r: Option<nat>)
    ensures r.None? <==> (s == [] || !IsDigit(s[0]))
    ensures r.Some? ==> r.value == DigitsValue(DigitPrefix(s))
    ensures AllDigits(s) && s != [] ==> r == Some(DigitsValue(s))
  {
    var p := DigitPrefix(s);
    assert AllDigits(s) ==> p == s;
    if p == [] then None else Some(DigitsValue(p))
  }
}
