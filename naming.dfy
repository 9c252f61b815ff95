/**
 * The name under which an accepted upload is stored:
 * `<uploadDir>/<decimal UnixNano timestamp><extension of the original filename>`,
 * built with `%s/%d%s` and `filepath.Ext`.
 */
module Naming {

  function DigitChar(d: nat): char
    requires d < 10
  {
    ('0' as int + d) as char
  }

  predicate IsDigit(c: char)
  {
    '0' <= c <= '9'
  }

  /** Decimal digits of a natural number, most significant first, no leading zeros. */
  function Digits(n: nat): string
    decreases n
  {
    if n < 10 then [DigitChar(n)] else Digits(n / 10) + [DigitChar(n % 10)]
  }

  /** Digits yields at least one character, and only decimal digits. */
  lemma {:induction false} DigitsShape(n: nat)
    ensures |Digits(n)| >= 1
    ensures forall i :: 0 <= i < |Digits(n)| ==> IsDigit(Digits(n)[i])
    decreases n
  {
    if n >= 10 {
      DigitsShape(n / 10);
    }
  }

  /** Go's `%d` formatting of an integer: an optional minus sign, then the digits. */
  function Decimal(n: int): string
  {
    if n < 0 then "-" + Digits(-n) else Digits(n)
  }

  /** A formatted timestamp is a non-empty run of digits after an optional minus sign. */
  lemma DecimalShape(n: int)
    ensures |Decimal(n)| >= 1
    ensures forall i :: 0 <= i < |Decimal(n)| ==> IsDigit(Decimal(n)[i]) || (i == 0 && Decimal(n)[i] == '-')
  {
    DigitsShape(if n < 0 then -n else n);
  }

  lemma DecimalHasNoDot(n: int)
    ensures forall i :: 0 <= i < |Decimal(n)| ==> Decimal(n)[i] != '.'
  {
    DecimalShape(n);
  }

  /** Reads a string of digits back as a number (the inverse of Digits). */
  function ParseDigits(s: string): int
  {
    if s == [] then 0 else 10 * ParseDigits(s[..|s| - 1]) + (s[|s| - 1] as int - '0' as int)
  }

  /** Reads a decimal string back as an integer (the inverse of Decimal). */
  function ParseDecimal(s: string): int
  {
    if |s| > 0 && s[0] == '-' then - ParseDigits(s[1..]) else ParseDigits(s)
  }

  lemma {:induction false} DigitsRoundTrip(n: nat)
    ensures ParseDigits(Digits(n)) == n
    decreases n
  {
    if n >= 10 {
      var s := Digits(n);
      assert s[..|s| - 1] == Digits(n / 10);
      DigitsRoundTrip(n / 10);
    }
  }

  lemma DecimalRoundTrip(n: int)
    ensures ParseDecimal(Decimal(n)) == n
  {
    if n < 0 {
      DigitsRoundTrip(-n);
      assert Decimal(n)[1..] == Digits(-n);
    } else {
      DigitsShape(n);
      DigitsRoundTrip(n);
    }
  }

  /** Two timestamps print the same exactly when they are equal. */
  lemma DecimalInjective(a: int, b: int)
    ensures Decimal(a) == Decimal(b) <==> a == b
  {
    if Decimal(a) == Decimal(b) {
      DecimalRoundTrip(a);
      DecimalRoundTrip(b);
    }
  }

  /**
   * Go's `filepath.Ext` with `/` as the separator: the suffix of `path` that starts at
   * the last dot of its final element, or empty when that element has no dot.
   */
  function Ext(path: string): string
    decreases |path|
  {
    if path == [] then []
    else
      var c := path[|path| - 1];
      if c == '/' then []
      else if c == '.' then "."
      else
        var e := Ext(path[..|path| - 1]);
        if e == [] then [] else e + [c]
  }

  /** Ext is empty or a dot followed by characters that are neither dots nor separators. */
  lemma {:induction false} ExtShape(path: string)
    ensures Ext(path) == [] || Ext(path)[0] == '.'
    ensures forall i :: 0 < i < |Ext(path)| ==> Ext(path)[i] != '.' && Ext(path)[i] != '/'
    decreases |path|
  {
    if path != [] {
      ExtShape(path[..|path| - 1]);
    }
  }

  /** Ext is a suffix of the path. */
  lemma {:induction false} ExtIsSuffix(path: string)
    ensures |Ext(path)| <= |path| && Ext(path) == path[|path| - |Ext(path)|..]
    decreases |path|
  {
    if path != [] {
      var init := path[..|path| - 1];
      ExtIsSuffix(init);
      if Ext(path) != [] && path[|path| - 1] != '.' {
        assert Ext(path) == Ext(init) + [path[|path| - 1]];
        assert path == init + [path[|path| - 1]];
      }
    }
  }

  /** Ext is empty only when the final element of the path has no dot. */
  lemma {:induction false} ExtEmptyMeansNoDot(path: string)
    requires Ext(path) == []
    ensures forall i :: 0 <= i < |path| && path[i] == '.' ==> exists j :: i < j < |path| && path[j] == '/'
    decreases |path|
  {
    if path != [] && path[|path| - 1] != '/' {
      var init := path[..|path| - 1];
      ExtEmptyMeansNoDot(init);
      forall i | 0 <= i < |path| && path[i] == '.'
        ensures exists j :: i < j < |path| && path[j] == '/'
      {
        var j :| i < j < |init| && init[j] == '/';
        assert path[j] == '/';
      }
    }
  }

  /** A dotted suffix with no further dot or separator is exactly what Ext returns. */
  lemma ExtOfDottedSuffix(path: string, e: string)
    requires |e| >= 1 && e[0] == '.'
    requires forall i :: 0 < i < |e| ==> e[i] != '.' && e[i] != '/'
    requires |e| <= |path| && path[|path| - |e|..] == e
    ensures Ext(path) == e
  {
    var ext := Ext(path);
    ExtIsSuffix(path);
    ExtShape(path);
    var p := |path| - |e|;
    assert path[p] == '.';
    if ext == [] {
      ExtEmptyMeansNoDot(path);
      assert false;
    }
    if |ext| < |e| {
      assert false;
    }
    if |ext| > |e| {
      assert false;
    }
  }

  /** The path line main.go:109 passes to os.Create. */
  function StoredName(uploadDir: string, nanos: int, filename: string): string
  {
    uploadDir + "/" + Decimal(nanos) + Ext(filename)
  }

  /** The base name of a stored file: what a directory walk reports as its name. */
  function StoredBaseName(nanos: int, filename: string): string
  {
    Decimal(nanos) + Ext(filename)
  }

  /** Index of the first dot of `s`, or `|s|` when there is none. */
  function FirstDot(s: string): (k: nat)
    ensures k <= |s|
    ensures forall i :: 0 <= i < k ==> s[i] != '.'
    ensures k < |s| ==> s[k] == '.'
  {
    if s == [] then 0 else if s[0] == '.' then 0 else 1 + FirstDot(s[1..])
  }

  /** A dot-free head followed by an empty or dot-led tail splits at the first dot. */
  lemma {:induction false} FirstDotSplits(d: string, e: string)
    requires forall i :: 0 <= i < |d| ==> d[i] != '.'
    requires e == [] || e[0] == '.'
    ensures FirstDot(d + e) == |d|
  {
    if d != [] {
      assert (d + e)[1..] == d[1..] + e;
      FirstDotSplits(d[1..], e);
    }
  }

  /** A dot-free head followed by an empty or dot-led tail splits in only one way. */
  lemma SplitUnique(d1: string, e1: string, d2: string, e2: string)
    requires forall i :: 0 <= i < |d1| ==> d1[i] != '.'
    requires forall i :: 0 <= i < |d2| ==> d2[i] != '.'
    requires e1 == [] || e1[0] == '.'
    requires e2 == [] || e2[0] == '.'
    requires d1 + e1 == d2 + e2
    ensures d1 == d2 && e1 == e2
  {
    FirstDotSplits(d1, e1);
    FirstDotSplits(d2, e2);
    assert d1 == (d1 + e1)[..|d1|] && e1 == (d1 + e1)[|d1|..];
    assert d2 == (d2 + e2)[..|d2|] && e2 == (d2 + e2)[|d2|..];
  }

  /** Base names collide exactly when the timestamps and the extensions agree. */
  lemma StoredBaseNameInjective(t1: int, f1: string, t2: int, f2: string)
    ensures StoredBaseName(t1, f1) == StoredBaseName(t2, f2) <==> t1 == t2 && Ext(f1) == Ext(f2)
  {
    var d1, e1, d2, e2 := Decimal(t1), Ext(f1), Decimal(t2), Ext(f2);
    if d1 + e1 == d2 + e2 {
      ExtShape(f1);
      ExtShape(f2);
      DecimalHasNoDot(t1);
      DecimalHasNoDot(t2);
      SplitUnique(d1, e1, d2, e2);
      DecimalInjective(t1, t2);
    }
  }

  /**
   * Two uploads are stored under the same path exactly when their timestamps are equal
   * and their original filenames have the same extension; the sniffed type plays no part.
   */
  lemma StoredNameInjective(uploadDir: string, t1: int, f1: string, t2: int, f2: string)
    ensures StoredName(uploadDir, t1, f1) == StoredName(uploadDir, t2, f2)
        <==> t1 == t2 && Ext(f1) == Ext(f2)
  {
    var prefix := uploadDir + "/";
    assert StoredName(uploadDir, t1, f1) == prefix + StoredBaseName(t1, f1);
    assert StoredName(uploadDir, t2, f2) == prefix + StoredBaseName(t2, f2);
    if StoredName(uploadDir, t1, f1) == StoredName(uploadDir, t2, f2) {
      assert StoredBaseName(t1, f1) == (prefix + StoredBaseName(t1, f1))[|prefix|..];
      assert StoredBaseName(t2, f2) == (prefix + StoredBaseName(t2, f2))[|prefix|..];
    }
    StoredBaseNameInjective(t1, f1, t2, f2);
  }
}
