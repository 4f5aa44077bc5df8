/**
 * The pieces of Ruby's String API that the portal's helpers rely on:
 * `split` (on a character class or on a separator string, dropping trailing
 * empty fields), `Array#join`, `strip`, `downcase`, `Integer#to_s` and
 * `String#to_i`.
 */
module RubyText {

  /** Ruby's `\s`: space, tab, newline, vertical tab, form feed, carriage return. */
  const Whitespace: set<char> := {' ', '\t', '\n', '\U{0B}', '\U{0C}', '\r'}

  /** Characters `strip` removes from both ends: whitespace and NUL. */
  const StripChars: set<char> := Whitespace + {'\0'}

  /** No character of `s` is in `cs`. */
  predicate Avoids(s: string, cs: set<char>)
  {
    forall i :: 0 <= i < |s| ==> s[i] !in cs
  }

  predicate StartsWith(s: string, p: string)
  {
    |p| <= |s| && s[..|p|] == p
  }

  // ---------------------------------------------------------------------------
  // strip

  function TrimLeft(s: string, drop: set<char>): (r: string)
    ensures |r| <= |s| && r == s[|s| - |r|..]
    ensures r != [] ==> r[0] !in drop
    ensures forall i :: 0 <= i < |s| - |r| ==> s[i] in drop
  {
    if s != [] && s[0] in drop then TrimLeft(s[1..], drop) else s
  }

  function TrimRight(s: string, drop: set<char>): (r: string)
    ensures |r| <= |s| && r == s[..|r|]
    ensures r != [] ==> r[|r| - 1] !in drop
    ensures forall i :: |r| <= i < |s| ==> s[i] in drop
  {
    if s != [] && s[|s| - 1] in drop then TrimRight(s[..|s| - 1], drop) else s
  }

  /** `String#strip`. */
  function Strip(s: string): (r: string)
    ensures r != [] ==> r[0] !in StripChars && r[|r| - 1] !in StripChars
    ensures (forall i :: 0 <= i < |s| ==> s[i] !in StripChars) ==> r == s
  {
    TrimRight(TrimLeft(s, StripChars), StripChars)
  }

  /** `strip` only removes characters, so it keeps a string clear of any class. */
  lemma StripAvoids(s: string, cs: set<char>)
    requires Avoids(s, cs)
    ensures Avoids(Strip(s), cs)
  {
    var l := TrimLeft(s, StripChars);
    forall i | 0 <= i < |l| ensures l[i] !in cs {
      assert l[i] == s[|s| - |l| + i];
    }
    var r := TrimRight(l, StripChars);
    assert r == Strip(s);
    forall i | 0 <= i < |r| ensures r[i] !in cs {
      assert r[i] == l[i];
    }
  }

  // ---------------------------------------------------------------------------
  // split on a character class, e.g. `split(/[\s\n,]/)` or `split(',')`

  /** Every field between two delimiters, including empty ones. */
  function SplitAnyRaw(s: string, delims: set<char>): (r: seq<string>)
    ensures |r| >= 1
    ensures forall j :: 0 <= j < |r| ==> Avoids(r[j], delims)
  {
    if s == [] then [""]
    else
      var rest := SplitAnyRaw(s[1..], delims);
      if s[0] in delims then [""] + rest
      else [[s[0]] + rest[0]] + rest[1..]
  }

  /** Ruby drops the empty fields at the end of a split. */
  function DropTrailingEmpty(fields: seq<string>): (r: seq<string>)
    ensures |r| <= |fields| && r == fields[..|r|]
    ensures r != [] ==> r[|r| - 1] != ""
    ensures forall j :: |r| <= j < |fields| ==> fields[j] == ""
  {
    if fields != [] && fields[|fields| - 1] == "" then DropTrailingEmpty(fields[..|fields| - 1])
    else fields
  }

  /** `String#split` with a character-class pattern. */
  function SplitAny(s: string, delims: set<char>): (r: seq<string>)
    ensures forall j :: 0 <= j < |r| ==> Avoids(r[j], delims)
  {
    var raw := SplitAnyRaw(s, delims);
    DropTrailingEmpty(raw)
  }

  // ---------------------------------------------------------------------------
  // split on a separator string, e.g. `split('--')`

  function SplitOnRaw(s: string, sep: string): (r: seq<string>)
    requires sep != []
    ensures |r| >= 1
    decreases |s|
  {
    if s == [] then [""]
    else if StartsWith(s, sep) then [""] + SplitOnRaw(s[|sep|..], sep)
    else
      var rest := SplitOnRaw(s[1..], sep);
      [[s[0]] + rest[0]] + rest[1..]
  }

  /** `String#split` with a separator string. */
  function SplitOn(s: string, sep: string): (r: seq<string>)
    requires sep != []
  {
    DropTrailingEmpty(SplitOnRaw(s, sep))
  }

  /** No occurrence of `sep` starts inside `a`, even when `sep` follows `a`. */
  predicate SepFree(a: string, sep: string)
  {
    forall j :: 0 <= j < |a| ==> !StartsWith(a[j..] + sep, sep)
  }

  // ---------------------------------------------------------------------------
  // Array#join

  function Join(fields: seq<string>, sep: string): (r: string)
  {
    if fields == [] then ""
    else if |fields| == 1 then fields[0]
    else fields[0] + sep + Join(fields[1..], sep)
  }

  /** Joining fields and a separator that avoid a class gives a string that avoids it. */
  lemma {:induction false} JoinAvoids(fields: seq<string>, sep: string, cs: set<char>)
    requires forall j :: 0 <= j < |fields| ==> Avoids(fields[j], cs)
    requires Avoids(sep, cs)
    ensures Avoids(Join(fields, sep), cs)
  {
    if |fields| > 1 {
      JoinAvoids(fields[1..], sep, cs);
      var a := fields[0] + sep;
      var b := Join(fields[1..], sep);
      forall i | 0 <= i < |a + b| ensures (a + b)[i] !in cs {
        if i < |fields[0]| {
          assert (a + b)[i] == fields[0][i];
        } else if i < |a| {
          assert (a + b)[i] == sep[i - |fields[0]|];
        } else {
          assert (a + b)[i] == b[i - |a|];
        }
      }
    }
  }

  /** Joining a joined tail with the same separator is joining the whole list. */
  lemma {:induction false} JoinFlatten(a: seq<string>, b: seq<string>, sep: string)
    requires b != []
    ensures Join(a + [Join(b, sep)], sep) == Join(a + b, sep)
  {
    var j := Join(b, sep);
    if a == [] {
      assert a + [j] == [j] && a + b == b;
    } else {
      JoinFlatten(a[1..], b, sep);
      assert (a + [j])[1..] == a[1..] + [j];
      assert (a + b)[1..] == a[1..] + b;
      assert Join(a + [j], sep) == a[0] + sep + Join(a[1..] + [j], sep);
      assert Join(a + b, sep) == a[0] + sep + Join(a[1..] + b, sep);
    }
  }

  // ---------------------------------------------------------------------------
  // downcase (ASCII letters)

  function DowncaseChar(c: char): (d: char)
  {
    if 'A' <= c <= 'Z' then (c as int + 32) as char else c
  }

  function Downcase(s: string): (r: string)
    ensures |r| == |s|
    ensures forall i :: 0 <= i < |s| ==> r[i] == DowncaseChar(s[i])
  {
    if s == [] then [] else [DowncaseChar(s[0])] + Downcase(s[1..])
  }

  // ---------------------------------------------------------------------------
  // decimal numbers: Integer#to_s and String#to_i

  predicate IsDigit(c: char)
  {
    '0' <= c <= '9'
  }

  function DigitChar(d: nat): (c: char)
    requires d < 10
    ensures IsDigit(c)
  {
    ('0' as int + d) as char
  }

  function DigitValue(c: char): (d: nat)
    requires IsDigit(c)
    ensures d < 10
  {
    c as int - '0' as int
  }

  predicate AllDigits(s: string)
  {
    forall i :: 0 <= i < |s| ==> IsDigit(s[i])
  }

  /** `Integer#to_s` of a non-negative integer. */
  function NatToString(n: nat): (s: string)
    ensures s != [] && AllDigits(s)
    ensures s[0] == '0' ==> n == 0
  {
    if n < 10 then [DigitChar(n)] else NatToString(n / 10) + [DigitChar(n % 10)]
  }

  /** The value of a string of decimal digits. */
  function DigitsValue(s: string): nat
    requires AllDigits(s)
  {
    if s == [] then 0 else 10 * DigitsValue(s[..|s| - 1]) + DigitValue(s[|s| - 1])
  }

  lemma {:induction false} NatToStringRoundTrip(n: nat)
    ensures DigitsValue(NatToString(n)) == n
  {
    if n >= 10 {
      NatToStringRoundTrip(n / 10);
      var s := NatToString(n);
      assert s[..|s| - 1] == NatToString(n / 10);
    }
  }

  lemma NatToStringInjective(n: nat, m: nat)
    requires NatToString(n) == NatToString(m)
    ensures n == m
  {
    NatToStringRoundTrip(n);
    NatToStringRoundTrip(m);
  }

  /** The longest prefix of `s` made of digits. */
  function LeadingDigits(s: string): (r: string)
    ensures AllDigits(r) && StartsWith(s, r)
    ensures |r| < |s| ==> !IsDigit(s[|r|])
  {
    if s != [] && IsDigit(s[0]) then [s[0]] + LeadingDigits(s[1..]) else []
  }

  /** `String#to_i`: leading whitespace, an optional sign, then as many digits as follow. */
  function StringToI(s: string): int
  {
    var t := TrimLeft(s, Whitespace);
    if t != [] && t[0] == '-' then -(DigitsValue(LeadingDigits(t[1..])) as int)
    else if t != [] && t[0] == '+' then DigitsValue(LeadingDigits(t[1..]))
    else DigitsValue(LeadingDigits(t))
  }

  lemma LeadingDigitsOfDigits(s: string)
    requires AllDigits(s)
    ensures LeadingDigits(s) == s
  {
    if s != [] {
      LeadingDigitsOfDigits(s[1..]);
    }
  }

  /** `to_i` reads back what `to_s` wrote. */
  lemma StringToIRoundTrip(n: nat)
    ensures StringToI(NatToString(n)) == n
  {
    var s := NatToString(n);
    NatToStringRoundTrip(n);
    LeadingDigitsOfDigits(s);
    assert s[0] !in Whitespace by { assert IsDigit(s[0]); }
    assert TrimLeft(s, Whitespace) == s;
    assert s[0] != '-' && s[0] != '+' by { assert IsDigit(s[0]); }
  }

  /** `to_i` reads back a negative number written with a minus sign. */
  lemma StringToINegativeRoundTrip(n: nat)
    ensures StringToI("-" + NatToString(n)) == -(n as int)
  {
    var s := NatToString(n);
    NatToStringRoundTrip(n);
    LeadingDigitsOfDigits(s);
    var m := "-" + s;
    assert m[0] == '-' && '-' !in Whitespace;
    assert TrimLeft(m, Whitespace) == m;
    assert m[1..] == s;
  }

  // ---------------------------------------------------------------------------
  // round trips between split and join

  lemma {:induction false} SplitAnyRawAvoiding(a: string, delims: set<char>)
    requires Avoids(a, delims)
    ensures SplitAnyRaw(a, delims) == [a]
  {
    if a != [] {
      SplitAnyRawAvoiding(a[1..], delims);
      assert [a[0]] + a[1..] == a;
    }
  }

  lemma {:induction false} SplitAnyRawField(a: string, c: char, rest: string, delims: set<char>)
    requires Avoids(a, delims) && c in delims
    ensures SplitAnyRaw(a + [c] + rest, delims) == [a] + SplitAnyRaw(rest, delims)
  {
    var s := a + [c] + rest;
    if a == [] {
      assert s[1..] == rest;
    } else {
      assert s[1..] == a[1..] + [c] + rest;
      SplitAnyRawField(a[1..], c, rest, delims);
      assert [a[0]] + a[1..] == a;
    }
  }

  /** Splitting what `join` produced gives back the fields, when no field holds a delimiter. */
  lemma {:induction false} SplitAnyRawJoin(fields: seq<string>, c: char, delims: set<char>)
    requires fields != [] && c in delims
    requires forall j :: 0 <= j < |fields| ==> Avoids(fields[j], delims)
    ensures SplitAnyRaw(Join(fields, [c]), delims) == fields
  {
    if |fields| == 1 {
      SplitAnyRawAvoiding(fields[0], delims);
    } else {
      SplitAnyRawJoin(fields[1..], c, delims);
      SplitAnyRawField(fields[0], c, Join(fields[1..], [c]), delims);
      assert [fields[0]] + fields[1..] == fields;
    }
  }

  lemma DropTrailingEmptyKeeps(fields: seq<string>)
    requires fields != [] && fields[|fields| - 1] != ""
    ensures DropTrailingEmpty(fields) == fields
  {
  }

  /** Ruby's split undoes join when no field is empty or holds a delimiter. */
  lemma SplitAnyJoin(fields: seq<string>, c: char, delims: set<char>)
    requires fields != [] && c in delims
    requires forall j :: 0 <= j < |fields| ==> Avoids(fields[j], delims) && fields[j] != ""
    ensures SplitAny(Join(fields, [c]), delims) == fields
  {
    SplitAnyRawJoin(fields, c, delims);
  }

  lemma {:induction false} SplitOnRawSepFree(a: string, sep: string)
    requires sep != [] && SepFree(a, sep)
    ensures SplitOnRaw(a, sep) == [a]
  {
    if a != [] {
      assert !StartsWith(a, sep) by {
        assert !StartsWith(a[0..] + sep, sep);
        assert a[0..] == a;
      }
      assert SepFree(a[1..], sep) by {
        forall j | 0 <= j < |a[1..]| ensures !StartsWith(a[1..][j..] + sep, sep) {
          assert a[1..][j..] == a[j + 1..];
          assert !StartsWith(a[j + 1..] + sep, sep);
        }
      }
      SplitOnRawSepFree(a[1..], sep);
      assert [a[0]] + a[1..] == a;
    }
  }

  lemma {:induction false} SplitOnRawField(a: string, sep: string, rest: string)
    requires sep != [] && SepFree(a, sep)
    ensures SplitOnRaw(a + sep + rest, sep) == [a] + SplitOnRaw(rest, sep)
  {
    var s := a + sep + rest;
    if a == [] {
      assert s == sep + rest;
      assert StartsWith(s, sep) by { assert s[..|sep|] == sep; }
      assert s[|sep|..] == rest;
    } else {
      assert !StartsWith(s, sep) by {
        assert !StartsWith(a[0..] + sep, sep);
        assert a[0..] + sep == a + sep;
        assert |a + sep| >= |sep|;
        assert s[..|sep|] == (a + sep)[..|sep|];
      }
      assert SepFree(a[1..], sep) by {
        forall j | 0 <= j < |a[1..]| ensures !StartsWith(a[1..][j..] + sep, sep) {
          assert a[1..][j..] == a[j + 1..];
          assert !StartsWith(a[j + 1..] + sep, sep);
        }
      }
      assert s[1..] == a[1..] + sep + rest;
      SplitOnRawField(a[1..], sep, rest);
      assert [a[0]] + a[1..] == a;
    }
  }

  /** A string without `c` is free of any two-character separator starting with `c`. */
  lemma SepFreeWithout(a: string, c: char, d: char)
    requires forall i :: 0 <= i < |a| ==> a[i] != c
    ensures SepFree(a, [c, d])
  {
    forall j | 0 <= j < |a| ensures !StartsWith(a[j..] + [c, d], [c, d]) {
      assert (a[j..] + [c, d])[0] == a[j];
    }
  }

  // ---------------------------------------------------------------------------
  // join undoes split

  lemma {:induction false} JoinSplitAnyRaw(s: string, c: char)
    ensures Join(SplitAnyRaw(s, {c}), [c]) == s
  {
    if s != [] {
      var rest := SplitAnyRaw(s[1..], {c});
      JoinSplitAnyRaw(s[1..], c);
      if s[0] == c {
        assert SplitAnyRaw(s, {c}) == [""] + rest;
        assert ([""] + rest)[1..] == rest;
        assert s == [c] + s[1..];
      } else {
        var raw := SplitAnyRaw(s, {c});
        assert raw == [[s[0]] + rest[0]] + rest[1..];
        if |rest| == 1 {
          assert s == [s[0]] + s[1..];
        } else {
          assert raw[1..] == rest[1..];
          assert Join(rest, [c]) == rest[0] + [c] + Join(rest[1..], [c]);
          assert s == [s[0]] + s[1..];
        }
      }
    }
  }

  /** The last field of a raw split is empty exactly when the string is empty or ends in a delimiter. */
  lemma {:induction false} SplitAnyRawLast(s: string, delims: set<char>)
    ensures var raw := SplitAnyRaw(s, delims);
      raw[|raw| - 1] == "" <==> s == [] || s[|s| - 1] in delims
  {
    if s != [] {
      SplitAnyRawLast(s[1..], delims);
      var rest := SplitAnyRaw(s[1..], delims);
      if s[0] !in delims && |rest| == 1 {
        assert SplitAnyRaw(s, delims) == [[s[0]] + rest[0]];
        assert s[1..] == [] || s[|s| - 1] == s[1..][|s[1..]| - 1];
      } else {
        assert s[1..] == [] ==> s[|s| - 1] == s[0];
        assert s[1..] != [] ==> s[|s| - 1] == s[1..][|s[1..]| - 1];
      }
    }
  }

  /**
   * Joining what `split(c)` gave restores the string, unless the string ends
   * in `c`: the empty fields at the end are lost.
   */
  lemma JoinSplitAny(s: string, c: char)
    requires s == [] || s[|s| - 1] != c
    ensures Join(SplitAny(s, {c}), [c]) == s
  {
    JoinSplitAnyRaw(s, c);
    SplitAnyRawLast(s, {c});
    if s != [] {
      DropTrailingEmptyKeeps(SplitAnyRaw(s, {c}));
    }
  }
}
