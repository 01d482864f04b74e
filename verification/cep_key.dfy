/**
 * Canonical keys for the address cache: `normalizeCep` and
 * `formatCepWithHyphen` of `ViaCepService`.
 *
 * A raw CEP is reduced to its digits; the row key is the hyphenated
 * `NNNNN-NNN` form of those digits, or the bare digits when there are not
 * exactly eight of them.
 */
module CepKey {
  import opened Text

  /** Digits in a CEP. */
  const CepLength: nat := 8
  /** Index of the hyphen in `NNNNN-NNN`. */
  const HyphenAt: nat := 5

  /** `cep.replace(/\D/g, "")`: keep the digits, in order, drop everything else. */
  function NormalizeCep(s: string): (r: string)
    ensures AllDigits(r)
    ensures IsSubsequence(r, s)
    ensures |r| <= |s|
  {
    if s == [] then []
    else if IsDigit(s[0]) then
      var r := [s[0]] + NormalizeCep(s[1..]);
      assert r[1..] == NormalizeCep(s[1..]);
      r
    else NormalizeCep(s[1..])
  }

  /** `NNNNN-NNN` for eight digits, otherwise the digits unchanged. */
  function FormatCepWithHyphen(s: string): (r: string)
    ensures var d := NormalizeCep(s);
      |d| == CepLength ==> |r| == CepLength + 1 && r[HyphenAt] == '-' && r[..HyphenAt] + r[HyphenAt + 1..] == d
    ensures |NormalizeCep(s)| != CepLength ==> r == NormalizeCep(s)
  {
    var d := NormalizeCep(s);
    if |d| == CepLength then
      var r := d[..HyphenAt] + "-" + d[HyphenAt..];
      assert r[..HyphenAt] == d[..HyphenAt] && r[HyphenAt + 1..] == d[HyphenAt..];
      r
    else d
  }

  // ---------------------------------------------------------------------------
  // Lemmas
  // ---------------------------------------------------------------------------

  /** A digits-only string is already normal. */
  lemma {:induction false} NormalizeOfDigits(s: string)
    requires AllDigits(s)
    ensures NormalizeCep(s) == s
    decreases |s|
  {
    if s != [] {
      NormalizeOfDigits(s[1..]);
      assert s == [s[0]] + s[1..];
    }
  }

  /** A string without digits normalises to the empty string. */
  lemma {:induction false} NormalizeOfNonDigits(s: string)
    requires forall i :: 0 <= i < |s| ==> !IsDigit(s[i])
    ensures NormalizeCep(s) == []
    decreases |s|
  {
    if s != [] {
      NormalizeOfNonDigits(s[1..]);
    }
  }

  /** Normalisation works piecewise, so separators anywhere are simply dropped. */
  lemma {:induction false} NormalizeConcat(a: string, b: string)
    ensures NormalizeCep(a + b) == NormalizeCep(a) + NormalizeCep(b)
    decreases |a|
  {
    if a == [] {
      assert a + b == b;
    } else {
      assert (a + b)[1..] == a[1..] + b;
      NormalizeConcat(a[1..], b);
    }
  }

  lemma NormalizeIdempotent(s: string)
    ensures NormalizeCep(NormalizeCep(s)) == NormalizeCep(s)
  {
    NormalizeOfDigits(NormalizeCep(s));
  }

  /** Normalising the hyphenated key gives back the digits it was built from. */
  lemma FormatRoundTrip(s: string)
    ensures NormalizeCep(FormatCepWithHyphen(s)) == NormalizeCep(s)
  {
    var d := NormalizeCep(s);
    NormalizeOfDigits(d);
    if |d| == CepLength {
      var r := FormatCepWithHyphen(s);
      assert r == d[..HyphenAt] + "-" + d[HyphenAt..];
      NormalizeConcat(d[..HyphenAt] + "-", d[HyphenAt..]);
      NormalizeConcat(d[..HyphenAt], "-");
      NormalizeOfNonDigits("-");
      NormalizeOfDigits(d[..HyphenAt]);
      NormalizeOfDigits(d[HyphenAt..]);
      assert d[..HyphenAt] + d[HyphenAt..] == d;
    }
  }

  /**
   * Two inputs reach the same cache row exactly when they carry the same
   * digits: formatting (hyphen, spaces, dots) never splits or merges rows.
   */
  lemma SameKeyIffSameDigits(a: string, b: string)
    ensures FormatCepWithHyphen(a) == FormatCepWithHyphen(b) <==> NormalizeCep(a) == NormalizeCep(b)
  {
    FormatRoundTrip(a);
    FormatRoundTrip(b);
  }

  /** Formatting an already formatted key changes nothing. */
  lemma FormatIdempotent(s: string)
    ensures FormatCepWithHyphen(FormatCepWithHyphen(s)) == FormatCepWithHyphen(s)
  {
    FormatRoundTrip(s);
  }

  /** The digits of `01001-000`. */
  lemma PracaDaSeParts()
    ensures "01001" + ("-" + "000") == "01001-000"
    ensures "01001" + "000" == "01001000"
  {
  }

  lemma PracaDaSeDigits()
    ensures NormalizeCep("01001-000") == "01001000"
  {
    PracaDaSeParts();
    var a, h, b := "01001", "-", "000";
    assert AllDigits(a) && AllDigits(b);
    NormalizeOfDigits(a);
    NormalizeOfDigits(b);
    NormalizeOfNonDigits(h);
    NormalizeConcat(h, b);
    assert NormalizeCep(h + b) == b;
    NormalizeConcat(a, h + b);
  }


  /** `01001-000` and `01001000` share the row keyed `01001-000`. */
  lemma PracaDaSeExample()
    ensures NormalizeCep("01001-000") == "01001000"
    ensures FormatCepWithHyphen("01001-000") == "01001-000"
    ensures FormatCepWithHyphen("01001000") == "01001-000"
  {
    PracaDaSeDigits();
    NormalizeOfDigits("01001000");
    var d := "01001000";
    assert d[..HyphenAt] + "-" + d[HyphenAt..] == "01001-000";
  }
}
