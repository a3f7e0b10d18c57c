/** The string operations of Python's standard library that fishbuilder.py relies on. */
module Text {

  /** `s.strip(c)` removes every leading character equal to `c`. */
  function StripLeading(s: string, c: char): string
  {
    if s != [] && s[0] == c then StripLeading(s[1..], c) else s
  }

  /** What `StripLeading` removes is a run of `c`; what it keeps is the rest
      of `s`, which does not start with `c`. */
  lemma {:induction false} StripLeadingSpec(s: string, c: char)
    ensures var r := StripLeading(s, c);
      |r| <= |s| && r == s[|s| - |r|..]
      && (r == [] || r[0] != c)
      && (forall i :: 0 <= i < |s| - |r| ==> s[i] == c)
  {
    if s != [] && s[0] == c {
      StripLeadingSpec(s[1..], c);
      var r := StripLeading(s, c);
      forall i | 0 <= i < |s| - |r| ensures s[i] == c {
        if i > 0 {
          assert s[i] == s[1..][i - 1];
        }
      }
    }
  }

  /** `s.strip(c)` removes every trailing character equal to `c`. */
  function StripTrailing(s: string, c: char): string
  {
    if s != [] && s[|s| - 1] == c then StripTrailing(s[..|s| - 1], c) else s
  }

  /** What `StripTrailing` removes is a run of `c`; what it keeps is the start
      of `s`, which does not end with `c`. */
  lemma {:induction false} StripTrailingSpec(s: string, c: char)
    ensures var r := StripTrailing(s, c);
      |r| <= |s| && r == s[..|r|]
      && (r == [] || r[|r| - 1] != c)
      && (forall i :: |r| <= i < |s| ==> s[i] == c)
  {
    if s != [] && s[|s| - 1] == c {
      var init := s[..|s| - 1];
      StripTrailingSpec(init, c);
      var r := StripTrailing(s, c);
      assert r == StripTrailing(init, c);
      forall i | |r| <= i < |s| ensures s[i] == c {
        if i < |s| - 1 {
          assert s[i] == init[i];
        }
      }
    }
  }

  /** Python's `s.strip(c)` for a one-character argument: both ends are stripped. */
  function Strip(s: string, c: char): string
  {
    StripTrailing(StripLeading(s, c), c)
  }

  /** The result of `Strip` is the middle of `s`: what is cut off on either
      side consists of `c` only, and the result neither starts nor ends with `c`. */
  lemma StripIsTrimmedMiddle(s: string, c: char)
    ensures var a, r := |s| - |StripLeading(s, c)|, Strip(s, c);
      0 <= a && a + |r| <= |s| && r == s[a..a + |r|]
      && (r == [] || (r[0] != c && r[|r| - 1] != c))
      && (forall i :: 0 <= i < a ==> s[i] == c)
      && (forall i :: a + |r| <= i < |s| ==> s[i] == c)
  {
    var m := StripLeading(s, c);
    var r := StripTrailing(m, c);
    var a := |s| - |m|;
    StripLeadingSpec(s, c);
    StripTrailingSpec(m, c);
    assert m == s[a..];
    assert r == m[..|r|];
    assert r == s[a..a + |r|];
    forall i | a + |r| <= i < |s| ensures s[i] == c {
      assert s[i] == m[i - a];
    }
    if r != [] {
      assert r[0] == m[0];
    }
  }

  /** A line as `readlines` returns it, with or without its final newline,
      strips to the line's text. */
  lemma StripReadLine(text: string)
    requires '\n' !in text
    ensures Strip(text + "\n", '\n') == text
    ensures Strip(text, '\n') == text
  {
    var s := text + "\n";
    if text == [] {
      assert StripLeading(s, '\n') == StripLeading(s[1..], '\n');
    } else {
      assert text[0] != '\n' && text[|text| - 1] != '\n';
      assert s[0] == text[0];
      assert StripLeading(s, '\n') == s;
      assert StripLeading(text, '\n') == text;
      assert s[..|s| - 1] == text;
      assert StripTrailing(text, '\n') == text;
      assert StripTrailing(s, '\n') == StripTrailing(text, '\n');
    }
  }

  /** Python's `s.split(sep)` with an explicit separator: the pieces between
      separators, empty ones included; `''.split(sep)` is `['']`. */
  function Split(s: string, sep: char): (r: seq<string>)
    ensures |r| >= 1
  {
    if s == [] then [[]]
    else
      var rest := Split(s[1..], sep);
      if s[0] == sep then [[]] + rest
      else [[s[0]] + rest[0]] + rest[1..]
  }

  /** No piece holds the separator. */
  lemma {:induction false} SplitPiecesAvoidSep(s: string, sep: char)
    ensures forall k :: 0 <= k < |Split(s, sep)| ==> sep !in Split(s, sep)[k]
  {
    if s != [] {
      SplitPiecesAvoidSep(s[1..], sep);
      var rest := Split(s[1..], sep);
      var r := Split(s, sep);
      if s[0] != sep {
        assert r[0] == [s[0]] + rest[0];
        forall k | 1 <= k < |r| ensures sep !in r[k] {
          assert r[k] == rest[k];
        }
      } else {
        forall k | 1 <= k < |r| ensures sep !in r[k] {
          assert r[k] == rest[k - 1];
        }
      }
    }
  }

  /** Python's `sep.join(ts)`. */
  function Join(ts: seq<string>, sep: char): string
  {
    if |ts| == 0 then []
    else if |ts| == 1 then ts[0]
    else ts[0] + [sep] + Join(ts[1..], sep)
  }

  /** Number of occurrences of `c` in `s`. */
  function Count(s: string, c: char): nat
  {
    if s == [] then 0 else (if s[0] == c then 1 else 0) + Count(s[1..], c)
  }

  /** Splitting loses nothing: joining the pieces gives the string back. */
  lemma {:induction false} JoinSplit(s: string, sep: char)
    ensures Join(Split(s, sep), sep) == s
  {
    if s != [] {
      var rest := Split(s[1..], sep);
      JoinSplit(s[1..], sep);
      if s[0] == sep {
        assert Split(s, sep) == [[]] + rest;
        assert ([[]] + rest)[1..] == rest;
      } else {
        var r := Split(s, sep);
        assert r == [[s[0]] + rest[0]] + rest[1..];
        if |rest| == 1 {
          assert Join(rest, sep) == rest[0];
        } else {
          assert r[1..] == rest[1..];
          assert Join(rest, sep) == rest[0] + [sep] + Join(rest[1..], sep);
        }
      }
    }
  }

  /** There is one more piece than there are separators. */
  lemma {:induction false} SplitCount(s: string, sep: char)
    ensures |Split(s, sep)| == Count(s, sep) + 1
  {
    if s != [] {
      SplitCount(s[1..], sep);
    }
  }

  /** Splitting a string that starts with a separator-free piece `t`. */
  lemma {:induction false} SplitAfterPiece(t: string, rest: string, sep: char)
    requires sep !in t
    ensures Split(t + rest, sep) == [t + Split(rest, sep)[0]] + Split(rest, sep)[1..]
  {
    if t != [] {
      var s := t + rest;
      assert t[0] != sep && s[0] == t[0];
      assert s[1..] == t[1..] + rest;
      SplitAfterPiece(t[1..], rest, sep);
      var r := Split(rest, sep);
      var r1 := Split(s[1..], sep);
      assert r1 == [t[1..] + r[0]] + r[1..];
      assert Split(s, sep) == [[t[0]] + r1[0]] + r1[1..];
      assert r1[0] == t[1..] + r[0] && r1[1..] == r[1..];
      assert [t[0]] + (t[1..] + r[0]) == t + r[0];
    } else {
      var r := Split(rest, sep);
      assert t + rest == rest;
      assert t + r[0] == r[0];
      assert [r[0]] + r[1..] == r;
    }
  }

  /** Joining pieces that hold no separator and splitting again gives the pieces back. */
  lemma {:induction false} SplitJoin(ts: seq<string>, sep: char)
    requires |ts| >= 1
    requires forall t :: t in ts ==> sep !in t
    ensures Split(Join(ts, sep), sep) == ts
  {
    if |ts| == 1 {
      SplitAfterPiece(ts[0], [], sep);
      assert ts[0] + [] == ts[0];
    } else {
      var tail := Join(ts[1..], sep);
      SplitJoin(ts[1..], sep);
      assert Join(ts, sep) == ts[0] + ([sep] + tail);
      SplitAfterPiece(ts[0], [sep] + tail, sep);
      assert ([sep] + tail)[1..] == tail;
      assert Split([sep] + tail, sep) == [[]] + ts[1..];
      assert ts[0] + [] == ts[0];
    }
  }

  /** Whether `pat` occurs in `s` (what `re.search` decides for a literal pattern). */
  function Contains(s: string, pat: string): bool
  {
    pat <= s || (s != [] && Contains(s[1..], pat))
  }

  /** `pat` occurs in `s` starting at position `i`. */
  predicate OccursAt(s: string, pat: string, i: nat)
  {
    i + |pat| <= |s| && s[i..i + |pat|] == pat
  }

  /** `Contains` holds exactly when some window of `s` equals `pat`. */
  lemma {:induction false} ContainsIff(s: string, pat: string)
    ensures Contains(s, pat) <==> exists i: nat :: OccursAt(s, pat, i)
  {
    if pat <= s {
      assert OccursAt(s, pat, 0);
    } else if s == [] {
    } else {
      ContainsIff(s[1..], pat);
      if Contains(s[1..], pat) {
        var i: nat :| OccursAt(s[1..], pat, i);
        assert s[1..][i..i + |pat|] == s[i + 1..i + 1 + |pat|];
        assert OccursAt(s, pat, i + 1);
      }
      if exists i: nat :: OccursAt(s, pat, i) {
        var i: nat :| OccursAt(s, pat, i);
        if i != 0 {
          assert s[1..][i - 1..i - 1 + |pat|] == s[i..i + |pat|];
          assert OccursAt(s[1..], pat, i - 1);
        }
      }
    }
  }

  /** The characters matched by the regular-expression class `[0-9]`. */
  predicate IsDigit(c: char)
  {
    '0' <= c <= '9'
  }

  predicate AllDigits(s: string)
  {
    forall i :: 0 <= i < |s| ==> IsDigit(s[i])
  }

  /** `re.sub('[^0-9]', '', s)`: the digits of `s`, in order. */
  function KeepDigits(s: string): (r: string)
    ensures AllDigits(r)
    ensures |r| <= |s|
  {
    if s == [] then []
    else (if IsDigit(s[0]) then [s[0]] else []) + KeepDigits(s[1..])
  }

  /** Deleting non-digits works piece by piece and keeps order. */
  lemma {:induction false} KeepDigitsAppend(a: string, b: string)
    ensures KeepDigits(a + b) == KeepDigits(a) + KeepDigits(b)
  {
    if a != [] {
      assert (a + b)[0] == a[0];
      assert (a + b)[1..] == a[1..] + b;
      KeepDigitsAppend(a[1..], b);
      var h := if IsDigit(a[0]) then [a[0]] else [];
      assert KeepDigits(a + b) == h + KeepDigits(a[1..] + b);
      assert KeepDigits(a) == h + KeepDigits(a[1..]);
    } else {
      assert a + b == b;
    }
  }

  /** A digit string is left as it is. */
  lemma {:induction false} KeepDigitsOfDigits(s: string)
    requires AllDigits(s)
    ensures KeepDigits(s) == s
  {
    if s != [] {
      KeepDigitsOfDigits(s[1..]);
    }
  }

  /** A string without digits is deleted entirely. */
  lemma {:induction false} KeepDigitsOfNonDigits(s: string)
    requires forall i :: 0 <= i < |s| ==> !IsDigit(s[i])
    ensures KeepDigits(s) == []
  {
    if s != [] {
      KeepDigitsOfNonDigits(s[1..]);
    }
  }

  function DigitValue(c: char): nat
    requires IsDigit(c)
  {
    (c as int - '0' as int) as nat
  }

  function DigitChar(d: nat): (c: char)
    requires d < 10
    ensures IsDigit(c) && DigitValue(c) == d
  {
    ('0' as int + d) as char
  }

  /** The number that Python's `int` reads from a non-empty digit string (base 10). */
  function DecimalValue(s: string): nat
    requires AllDigits(s)
  {
    if s == [] then 0
    else DecimalValue(s[..|s| - 1]) * 10 + DigitValue(s[|s| - 1])
  }

  /** The decimal digits of `n`, without leading zeros (Python's `str(n)`). */
  function NatToDigits(n: nat): (s: string)
    ensures AllDigits(s) && s != []
    ensures |s| > 1 ==> s[0] != '0'
  {
    if n < 10 then [DigitChar(n)]
    else NatToDigits(n / 10) + [DigitChar(n % 10)]
  }

  /** Reading back the digits of a number gives the number. */
  lemma {:induction false} DecimalOfNatToDigits(n: nat)
    ensures DecimalValue(NatToDigits(n)) == n
  {
    if n >= 10 {
      DecimalOfNatToDigits(n / 10);
      var s := NatToDigits(n);
      assert s[..|s| - 1] == NatToDigits(n / 10);
    }
  }

  /** Leading zeros do not change the value that is read. */
  lemma {:induction false} DecimalLeadingZero(s: string)
    requires AllDigits(s)
    ensures DecimalValue("0" + s) == DecimalValue(s)
  {
    if s != [] {
      var z := "0" + s;
      assert z[..|z| - 1] == "0" + s[..|s| - 1];
      DecimalLeadingZero(s[..|s| - 1]);
    } else {
      assert ("0" + s)[..0] == [];
    }
  }
}
