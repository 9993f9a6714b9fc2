/**
  Destination names of downloaded images: the extension guessed from the URL
  and the name `<prefix>_<NNN><ext>` with the 1-based position zero-padded to
  at least three digits.
*/
module Naming {
  import opened Strings

  /** The markers looked for in the lower-cased URL, in the order they are tried. */
  const Markers: seq<string> := [".png", ".gif", ".webp"]

  /** The extension used when no marker occurs. */
  const DefaultExtension: string := ".jpg"

  /**
    The file extension for `url`: the first of `.png`, `.gif`, `.webp` that
    occurs in the lower-cased URL, or `.jpg` when none does.
  */
  function Extension(url: string): (ext: string)
    ensures ext == DefaultExtension || ext in Markers
  {
    FirstMarker(Lower(url), Markers)
  }

  /** The first of `markers` that occurs in `lowered`, or the default when none does. */
  function FirstMarker(lowered: string, markers: seq<string>): (ext: string)
    ensures ext == DefaultExtension || ext in markers
    decreases |markers|
  {
    if markers == [] then DefaultExtension
    else if Contains(lowered, markers[0]) then markers[0]
    else FirstMarker(lowered, markers[1..])
  }

  /**
    Extension inference is a first match: the default exactly when no marker
    occurs, and a marker only when it occurs and no earlier marker does.
  */
  lemma ExtensionFirstMatch(url: string)
    ensures Extension(url) == DefaultExtension <==> forall m :: m in Markers ==> !Contains(Lower(url), m)
    ensures forall k :: 0 <= k < |Markers| && Extension(url) == Markers[k] ==>
              Contains(Lower(url), Markers[k]) && forall j :: 0 <= j < k ==> !Contains(Lower(url), Markers[j])
  {
  }

  /**
    A URL in which `.png` occurs, written in any case, gets `.png`, whatever
    other markers it holds.
  */
  lemma PngInAnyCase(url: string, written: string)
    requires Contains(url, written) && Lower(written) == ".png"
    ensures Extension(url) == ".png"
  {
    ContainsLower(url, written);
  }

  /** The extension does not depend on the case of the URL's letters. */
  lemma ExtensionIgnoresCase(url: string)
    ensures Extension(Lower(url)) == Extension(url)
  {
    LowerIsLower(url);
  }

  predicate IsDigit(c: char) {
    '0' <= c <= '9'
  }

  predicate AllDigits(s: string) {
    forall i :: 0 <= i < |s| ==> IsDigit(s[i])
  }

  function DigitChar(d: nat): (c: char)
    requires d < 10
    ensures IsDigit(c) && c as int - '0' as int == d
  {
    ('0' as int + d) as char
  }

  /** The decimal digits of `n`, without leading zeros (`0` is written `"0"`). */
  function Decimal(n: nat): (s: string)
    ensures 1 <= |s| && AllDigits(s)
    ensures s[0] == '0' ==> n == 0
    decreases n
  {
    if n < 10 then [DigitChar(n)] else Decimal(n / 10) + [DigitChar(n % 10)]
  }

  /** The number a string of decimal digits reads as (leading zeros allowed). */
  function ValueOf(s: string): nat
    requires AllDigits(s)
    decreases |s|
  {
    if s == [] then 0 else ValueOf(s[..|s| - 1]) * 10 + (s[|s| - 1] as int - '0' as int)
  }

  /** Writing a number in decimal and reading it back gives the number. */
  lemma {:induction false} ValueOfDecimal(n: nat)
    ensures ValueOf(Decimal(n)) == n
    decreases n
  {
    if n >= 10 {
      var s := Decimal(n);
      assert s[..|s| - 1] == Decimal(n / 10);
      ValueOfDecimal(n / 10);
    }
  }

  function Zeros(k: nat): string {
    seq(k, _ => '0')
  }

  lemma {:induction false} ValueOfZeros(k: nat)
    ensures AllDigits(Zeros(k)) && ValueOf(Zeros(k)) == 0
  {
    if k > 0 {
      assert Zeros(k)[..k - 1] == Zeros(k - 1);
      ValueOfZeros(k - 1);
    }
  }

  /** Leading zeros do not change the value read. */
  lemma {:induction false} ValueOfLeadingZeros(k: nat, s: string)
    requires AllDigits(s)
    ensures AllDigits(Zeros(k) + s) && ValueOf(Zeros(k) + s) == ValueOf(s)
    decreases |s|
  {
    var t := Zeros(k) + s;
    if s == [] {
      assert t == Zeros(k);
      ValueOfZeros(k);
    } else {
      assert t[..|t| - 1] == Zeros(k) + s[..|s| - 1];
      ValueOfLeadingZeros(k, s[..|s| - 1]);
    }
  }

  /** `s` with zeros added on the left until it is `width` characters long. */
  function PadZeros(s: string, width: nat): string
    decreases width - |s|
  {
    if |s| >= width then s else PadZeros("0" + s, width)
  }

  lemma {:induction false} PadZerosReadsBack(s: string, width: nat)
    requires AllDigits(s)
    ensures |PadZeros(s, width)| == if |s| < width then width else |s|
    ensures AllDigits(PadZeros(s, width)) && ValueOf(PadZeros(s, width)) == ValueOf(s)
    decreases width - |s|
  {
    if |s| < width {
      ValueOfLeadingZeros(1, s);
      assert Zeros(1) == "0";
      PadZerosReadsBack("0" + s, width);
    }
  }

  /** `f"{n:03d}"`: the decimal digits of `n` zero-padded on the left to at least three characters. */
  function Pad3(n: nat): (p: string)
    ensures 3 <= |p| && AllDigits(p)
  {
    PadZerosReadsBack(Decimal(n), 3);
    PadZeros(Decimal(n), 3)
  }

  /** The padded number is at least three digits long, no longer than needed, and reads back as `n`. */
  lemma Pad3ReadsBack(n: nat)
    ensures |Pad3(n)| == if |Decimal(n)| < 3 then 3 else |Decimal(n)|
    ensures AllDigits(Pad3(n)) && ValueOf(Pad3(n)) == n
  {
    ValueOfDecimal(n);
    PadZerosReadsBack(Decimal(n), 3);
  }

  /**
    The name of the `index`-th downloaded file, `<prefix>_<NNN><ext>`: the
    prefix and `_`, then at least three digits, then the URL's extension.
  */
  function FileName(prefix: string, index: nat, url: string): (name: string)
    ensures |prefix| + 4 + |Extension(url)| <= |name|
    ensures name[..|prefix| + 1] == prefix + "_"
    ensures AllDigits(name[|prefix| + 1..|name| - |Extension(url)|])
    ensures name[|name| - |Extension(url)|..] == Extension(url)
  {
    var name := prefix + "_" + Pad3(index) + Extension(url);
    assert name[|prefix| + 1..|name| - |Extension(url)|] == Pad3(index);
    name
  }

  /** The number of decimal digits at the start of `s`. */
  function LeadingDigits(s: string): (n: nat)
    ensures n <= |s| && AllDigits(s[..n])
    ensures n < |s| ==> !IsDigit(s[n])
    decreases |s|
  {
    if s == [] || !IsDigit(s[0]) then 0
    else
      var n := 1 + LeadingDigits(s[1..]);
      assert s[..n] == [s[0]] + s[1..][..n - 1];
      n
  }

  /** The position number written in a file name made with `prefix`. */
  function IndexInName(prefix: string, name: string): nat {
    if |name| <= |prefix| then 0
    else
      var rest := name[|prefix| + 1..];
      ValueOf(rest[..LeadingDigits(rest)])
  }

  lemma {:induction false} LeadingDigitsOfDigitsThen(d: string, e: string)
    requires AllDigits(d)
    requires e != [] && !IsDigit(e[0])
    ensures LeadingDigits(d + e) == |d|
    decreases |d|
  {
    if d != [] {
      assert (d + e)[1..] == d[1..] + e;
      LeadingDigitsOfDigitsThen(d[1..], e);
    }
  }

  /**
    The position can be read back from the file name, so two positions never
    share a name, whatever the URLs.
  */
  lemma IndexInFileName(prefix: string, index: nat, url: string)
    ensures IndexInName(prefix, FileName(prefix, index, url)) == index
  {
    var name := FileName(prefix, index, url);
    var p, ext := Pad3(index), Extension(url);
    Pad3ReadsBack(index);
    assert name[|prefix| + 1..] == p + ext;
    LeadingDigitsOfDigitsThen(p, ext);
    assert (p + ext)[..|p|] == p;
  }

  lemma FileNamesDistinct(prefix: string, i: nat, j: nat, u: string, v: string)
    requires i != j
    ensures FileName(prefix, i, u) != FileName(prefix, j, v)
  {
    IndexInFileName(prefix, i, u);
    IndexInFileName(prefix, j, v);
  }
}
