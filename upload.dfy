/**
 * Preparing an inline image for the visual-search provider (app/actions/search.ts):
 * the data-URL prefix strip, the generated object name and the cleanup key
 * recovered from the object's public URL.
 */
module Upload {
  import opened Wrappers
  import opened Text

  /** The marker that ends a data-URL prefix such as `data:image/jpeg;base64,`. */
  const Marker: string := "base64,"

  /**
   * The first piece `split('base64,')` produces: `s` up to its first marker, or all of `s`
   * when there is none.
   */
  function FirstPiece(s: string): (r: string)
    ensures !Contains(r, Marker)
    ensures r <= s
    ensures |r| < |s| ==> Marker <= s[|r|..]
  {
    match IndexOf(s, Marker)
    case None => s
    case Some(j) =>
      PrefixBeforeFirstIsClean(s, Marker, j);
      assert OccursAt(s, Marker, j);
      s[..j]
  }

  /**
   * `input.includes('base64,') ? input.split('base64,')[1] : input`: the text after the
   * first marker, up to the next marker when there is one; the input itself otherwise.
   */
  function Payload(input: string): (r: string)
    ensures !Contains(r, Marker)
    ensures !Contains(input, Marker) ==> r == input
  {
    match IndexOf(input, Marker)
    case None => input
    case Some(i) => FirstPiece(input[i + |Marker|..])
  }

  /** No character after the first of the marker is a `b`, so two occurrences never overlap. */
  lemma MarkerNotSelfOverlapping(d: int)
    requires 0 < d < |Marker|
    ensures Marker[d] != Marker[0]
  {
  }

  /** When `p` holds no marker, the first marker in `p + Marker + x` starts right after `p`. */
  lemma {:induction false} FirstMarkerAfter(p: string, x: string)
    requires !Contains(p, Marker)
    ensures IndexOf(p + Marker + x, Marker) == Some(|p|)
  {
    var s := p + Marker + x;
    assert s[|p|..|p| + |Marker|] == Marker;
    assert OccursAt(s, Marker, |p|);
    var k := IndexOf(s, Marker).value;
    if k < |p| {
      if k + |Marker| <= |p| {
        assert p[k..k + |Marker|] == s[k..k + |Marker|];
        ContainsAt(p, Marker, k);
      } else {
        var d := |p| - k;
        assert s[k..k + |Marker|][d] == s[|p|] == Marker[0];
        MarkerNotSelfOverlapping(d);
      }
    }
  }

  /** A data URL `p + "base64," + x` yields `x` when neither part holds the marker. */
  lemma PayloadOfDataUrl(p: string, x: string)
    requires !Contains(p, Marker) && !Contains(x, Marker)
    ensures Payload(p + Marker + x) == x
  {
    FirstMarkerAfter(p, x);
    assert (p + Marker + x)[|p| + |Marker|..] == x;
  }

  /** Text after a second marker is dropped: `split(...)[1]` keeps only the first piece after the first marker. */
  lemma PayloadStopsAtSecondMarker(p: string, x: string, y: string)
    requires !Contains(p, Marker) && !Contains(x, Marker)
    ensures Payload(p + Marker + x + Marker + y) == x
  {
    var s := p + Marker + x + Marker + y;
    assert s == p + Marker + (x + Marker + y);
    FirstMarkerAfter(p, x + Marker + y);
    assert s[|p| + |Marker|..] == x + Marker + y;
    FirstMarkerAfter(x, y);
    assert (x + Marker + y)[..|x|] == x;
  }

  /**
   * Every input that holds the marker splits as its marker-free first piece, the marker, the
   * payload, and a tail that is empty or starts with the next marker.
   */
  lemma {:induction false} PayloadDecomposition(input: string)
    requires Contains(input, Marker)
    ensures var p := FirstPiece(input);
            var tail := input[|p| + |Marker| + |Payload(input)|..];
            && input == p + Marker + Payload(input) + tail
            && (tail == [] || Marker <= tail)
  {
    var i := IndexOf(input, Marker).value;
    var p := FirstPiece(input);
    assert p == input[..i];
    var rest := input[i + |Marker|..];
    assert input == p + Marker + rest;
    var payload := Payload(input);
    assert payload == FirstPiece(rest);
    var tail := rest[|payload|..];
    assert rest == payload + tail;
    assert tail == input[|p| + |Marker| + |payload|..];
  }

  /** Nothing before the first occurrence of `pat` contains `pat`. */
  lemma {:induction false} PrefixBeforeFirstIsClean(s: string, pat: string, i: nat)
    requires |pat| > 0 && IndexOf(s, pat) == Some(i)
    ensures !Contains(s[..i], pat)
  {
    if Contains(s[..i], pat) {
      var k := IndexOf(s[..i], pat).value;
      assert OccursAt(s[..i], pat, k);
      assert k + |pat| <= i;
      assert s[k..k + |pat|] == s[..i][k..k + |pat|];
      assert OccursAt(s, pat, k);
    }
  }

  /** A character of a base-36 numeral, as `Number.prototype.toString(36)` writes it. */
  predicate IsBase36Char(c: char) {
    '0' <= c <= '9' || 'a' <= c <= 'z'
  }

  type Base36Char = c: char | IsBase36Char(c) witness '0'

  function DigitChar(d: nat): (c: char)
    requires d < 10
    ensures '0' <= c <= '9'
  {
    ('0' as int + d) as char
  }

  /** The decimal numeral of `n`, as a template literal writes `Date.now()`. */
  function Decimal(n: nat): (r: string)
    ensures |r| > 0
    ensures forall i :: 0 <= i < |r| ==> '0' <= r[i] <= '9'
  {
    if n < 10 then [DigitChar(n)] else Decimal(n / 10) + [DigitChar(n % 10)]
  }

  /** The value of a numeral made of decimal digits. */
  function DecimalValue(s: string): nat
    requires forall i :: 0 <= i < |s| ==> '0' <= s[i] <= '9'
  {
    if s == [] then 0
    else DecimalValue(s[..|s| - 1]) * 10 + (s[|s| - 1] as int - '0' as int) as nat
  }

  /** Reading back the numeral gives the number: `Decimal` is injective. */
  lemma {:induction false} DecimalRoundTrip(n: nat)
    ensures DecimalValue(Decimal(n)) == n
  {
    if n >= 10 {
      var s := Decimal(n);
      assert s[..|s| - 1] == Decimal(n / 10);
      DecimalRoundTrip(n / 10);
    }
  }

  /**
   * The object name `${Date.now()}-${suffix}.jpg`, where `suffix` stands for
   * `Math.random().toString(36).substring(7)`.
   */
  function FileName(stamp: nat, suffix: seq<Base36Char>): (r: string)
    ensures '/' !in r
    ensures |r| >= 6 && r[|r| - 4..] == ".jpg"
    ensures forall i :: 0 <= i < |r| ==> IsBase36Char(r[i]) || r[i] == '-' || r[i] == '.'
  {
    Decimal(stamp) + "-" + suffix + ".jpg"
  }

  /** Distinct timestamps or random suffixes give distinct object names. */
  lemma FileNameInjective(stamp1: nat, suffix1: seq<Base36Char>, stamp2: nat, suffix2: seq<Base36Char>)
    requires FileName(stamp1, suffix1) == FileName(stamp2, suffix2)
    ensures stamp1 == stamp2 && suffix1 == suffix2
  {
    var d1, d2 := Decimal(stamp1), Decimal(stamp2);
    var n := FileName(stamp1, suffix1);
    assert n == d1 + ("-" + suffix1 + ".jpg") == d2 + ("-" + suffix2 + ".jpg");
    assert n[|d1|] == '-' && n[|d2|] == '-';
    assert forall i :: 0 <= i < |d1| ==> n[i] == d1[i] != '-';
    assert forall i :: 0 <= i < |d2| ==> n[i] == d2[i] != '-';
    assert d1 == n[..|d1|] == d2;
    DecimalRoundTrip(stamp1);
    DecimalRoundTrip(stamp2);
    assert suffix1 == n[|d1| + 1..|n| - 4] == suffix2;
  }

  /** `publicUrl.split('/').pop()`: the key the cleanup step removes. */
  function CleanupKey(publicUrl: string): (key: string)
    ensures '/' !in key
    ensures |key| <= |publicUrl| && key == publicUrl[|publicUrl| - |key|..]
    ensures |key| < |publicUrl| ==> publicUrl[|publicUrl| - |key| - 1] == '/'
  {
    LastSegment(publicUrl, '/')
  }

  /** The key recovered from `base + "/" + FileName(...)` is the uploaded name itself. */
  lemma CleanupKeyRecoversFileName(base: string, stamp: nat, suffix: seq<Base36Char>)
    ensures CleanupKey(base + "/" + FileName(stamp, suffix)) == FileName(stamp, suffix)
  {
    LastSegmentOfJoin(base, '/', FileName(stamp, suffix));
  }
}
