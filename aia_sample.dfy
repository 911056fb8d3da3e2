/**
 * `getUrls` on a concrete Authority Information Access value. The value is
 * the extension's DER encoding, held as a binary string: a SEQUENCE of two
 * AccessDescriptions, the first with access method id-ad-ocsp
 * (1.3.6.1.5.5.7.48.1) and location http://o.example/ocsp, the second with
 * id-ad-caIssuers (1.3.6.1.5.5.7.48.2) and location http://c.example/i.der.
 * The tag and length bytes between the two URIs contain no whitespace, so the
 * issuer pattern runs from the first URI's `http` to the second URI's `.der`.
 * The byte after the first URI, 0x30 ('0'), is kept in the OCSP URL, and the
 * next byte, the length 0x22, is a double quote, which ends that URL.
 */
module AiaSample {
  import opened Options
  import opened JsText
  import opened UrlPatterns
  import opened Server

  const OcspUri: string := "http://o.example/ocsp"
  const IssuerUri: string := "http://c.example/i.der"

  /** SEQUENCE (length 71), SEQUENCE (33), OID id-ad-ocsp, [6] IA5String of length 21. */
  const Head: string := [
    '\U{30}', '\U{47}', '\U{30}', '\U{21}', '\U{06}', '\U{08}', '\U{2B}', '\U{06}',
    '\U{01}', '\U{05}', '\U{05}', '\U{07}', '\U{30}', '\U{01}', '\U{86}', '\U{15}']

  /** SEQUENCE (34), OID id-ad-caIssuers, [6] IA5String of length 22. */
  const Mid: string := [
    '\U{30}', '\U{22}', '\U{06}', '\U{08}', '\U{2B}', '\U{06}', '\U{01}', '\U{05}',
    '\U{05}', '\U{07}', '\U{30}', '\U{02}', '\U{86}', '\U{16}']

  const Value: string := Head + OcspUri + Mid + IssuerUri

  lemma ValueLayout()
    ensures |Head| == 16 && |OcspUri| == 21 && |Mid| == 14 && |IssuerUri| == 22 && |Value| == 73
    ensures forall m :: 0 <= m < 16 ==> Value[m] == Head[m]
    ensures forall m :: 16 <= m < 37 ==> Value[m] == OcspUri[m - 16]
    ensures forall m :: 37 <= m < 51 ==> Value[m] == Mid[m - 37]
    ensures forall m :: 51 <= m < 73 ==> Value[m] == IssuerUri[m - 51]
  {
  }

  /** No character of the value from the first URI on is whitespace; there is no `h` before it and no `o` after its `ocsp`. */
  lemma ValueChars()
    ensures forall m :: 16 <= m < 73 ==> !IsSpace(Value[m])
    ensures forall m :: 0 <= m < 16 ==> Value[m] != 'h'
    ensures forall m :: 35 <= m < 73 ==> Value[m] != 'o'
    ensures Value[37] == '0' && Value[38] == '"'
    ensures AllIn(Value[16..73], NotSpace)
  {
    ValueLayout();
    forall m | 16 <= m < 73 ensures !IsSpace(Value[m]) && (35 <= m ==> Value[m] != 'o') {
      if m < 37 {
        assert OcspUri[m - 16] in OcspUri;
      } else if m < 51 {
        assert Mid[m - 37] in Mid;
      } else {
        assert IssuerUri[m - 51] in IssuerUri;
      }
    }
    forall m | 0 <= m < 16 ensures Value[m] != 'h' {
      assert Head[m] in Head;
    }
    forall m | 0 <= m < 57 ensures InClass(Value[16..73][m], NotSpace) {
      assert Value[16..73][m] == Value[16 + m];
    }
  }

  lemma NoMatchBeforeFirstUri(p: Pattern, i: int, j: int)
    requires 0 <= i < 16
    ensures !MatchesAt(p, Value, i, j)
  {
    ValueChars();
    MatchStartsWithHttp(p, Value, i, j);
    assert Value[i..i + 4][0] == Value[i];
  }

  lemma IssuerSpan()
    ensures LeftmostLongest(IssuerDer, Value, Span(16, 73))
  {
    ValueLayout();
    ValueChars();
    var t := Value[16..73];
    assert t[..4] == Http by {
      assert forall m :: 0 <= m < 4 ==> t[m] == Value[16 + m] == OcspUri[m];
      assert OcspUri[..4] == Http;
    }
    assert t[|t| - 4..] == DotDer by {
      assert t[53] == '.' && t[54] == 'd' && t[55] == 'e' && t[56] == 'r';
    }
    AllInSlice(Value, 16, 73, 20, 69, NotSpace);
    Slice(Value, 16, 73, 4, 53);
    forall i, j | 0 <= i < 16 ensures !MatchesAt(IssuerDer, Value, i, j) {
      NoMatchBeforeFirstUri(IssuerDer, i, j);
    }
  }

  /** A match from the first URI's start that ran past index 38 would need an `ocsp` from index 35 on. */
  lemma OcspStopsAtQuote(j: int)
    requires 38 < j <= |Value|
    ensures !MatchesAt(OcspUrl, Value, 16, j)
  {
    ValueChars();
    var t := Value[16..j];
    forall k ensures !OcspSplitAt(t, k) {
      if 5 <= k && k + 4 <= |t| {
        if k + 4 <= 22 {
          assert t[k + 4..][22 - (k + 4)] == '"';
        } else {
          assert t[k..k + 4][0] == Value[16 + k];
        }
      }
    }
  }

  lemma OcspSpan()
    ensures LeftmostLongest(OcspUrl, Value, Span(16, 38))
  {
    ValueLayout();
    ValueChars();
    var t := Value[16..38];
    assert t[..4] == Http by {
      assert t[0] == 'h' && t[1] == 't' && t[2] == 't' && t[3] == 'p';
    }
    assert t[17..21] == Ocsp by {
      assert t[17] == 'o' && t[18] == 'c' && t[19] == 's' && t[20] == 'p';
    }
    AllInSlice(Value, 16, 73, 20, 33, NotSpace);
    Slice(Value, 16, 38, 4, 17);
    assert AllIn(t[21..], NotSpaceOrQuote) by {
      assert t[21..] == [Value[37]];
    }
    assert OcspSplitAt(t, 17);
    forall i, j | 0 <= i < 16 ensures !MatchesAt(OcspUrl, Value, i, j) {
      NoMatchBeforeFirstUri(OcspUrl, i, j);
    }
    forall j | 38 < j ensures !MatchesAt(OcspUrl, Value, 16, j) {
      if j <= |Value| {
        OcspStopsAtQuote(j);
      }
    }
  }

  lemma UrlsFromSpans(s: string, a: Span, b: Span)
    requires Exec(IssuerDer, s) == Some(a) && Exec(OcspUrl, s) == Some(b)
    ensures GetUrls(Some(s)) == Urls(Some(s[a.start..a.end]), Some(s[b.start..b.end]))
  {
  }

  /**
   * On this value the issuer URL is both URIs together with the DER bytes
   * between them, and the OCSP URL is the OCSP URI followed by the character '0'.
   */
  lemma {:induction false} SampleUrls()
    ensures GetUrls(Some(Value)).issuerUrl == Some(OcspUri + Mid + IssuerUri)
    ensures GetUrls(Some(Value)).ocspUrl == Some(OcspUri + "0")
  {
    ValueLayout();
    IssuerSpan();
    OcspSpan();
    ExecReports(IssuerDer, Value, Span(16, 73));
    ExecReports(OcspUrl, Value, Span(16, 38));
    UrlsFromSpans(Value, Span(16, 73), Span(16, 38));
    UriSlices();
  }

  lemma UriSlices()
    ensures Value[16..73] == OcspUri + Mid + IssuerUri
    ensures Value[16..38] == OcspUri + "0"
  {
    ValueLayout();
    assert Value[16..73] == OcspUri + Mid + IssuerUri;
    assert Value[16..38] == OcspUri + "0";
  }
}
