/**
 * The few string operations the system relies on: the decimal rendering of
 * a number (`String(n)`, used for timestamps and record ids), the last
 * '/'-separated segment of a URL (`url.split('/').pop()`), and the URL under
 * which a saved face image is served (web-app/src/utils/image-storage.ts).
 */
module Text {

  predicate IsDigit(c: char) {
    '0' <= c <= '9'
  }

  predicate AllDigits(s: string) {
    forall k :: 0 <= k < |s| ==> IsDigit(s[k])
  }

  /** The decimal digits of `n`, most significant first, without leading zeros. */
  function Decimal(n: nat): (s: string)
    ensures |s| > 0 && AllDigits(s)
    ensures |s| > 1 ==> s[0] != '0'
  {
    (if n < 10 then "" else Decimal(n / 10)) + [('0' as int + n % 10) as char]
  }

  /** Reads a string of decimal digits back as a number. */
  function ParseDecimal(s: string): nat
    requires AllDigits(s)
  {
    if s == [] then 0
    else 10 * ParseDecimal(s[..|s| - 1]) + (s[|s| - 1] as int - '0' as int)
  }

  /** Parsing one more digit shifts the number read so far by one decimal place. */
  lemma ParseDecimalSnoc(prefix: string, digit: char)
    requires AllDigits(prefix) && IsDigit(digit)
    ensures AllDigits(prefix + [digit])
    ensures ParseDecimal(prefix + [digit]) == 10 * ParseDecimal(prefix) + (digit as int - '0' as int)
  {
    var s := prefix + [digit];
    assert s[..|s| - 1] == prefix;
  }

  /** Rendering a number in decimal loses nothing: parsing gives it back. */
  lemma {:induction false} DecimalRoundTrip(n: nat)
    ensures ParseDecimal(Decimal(n)) == n
  {
    var prefix := if n < 10 then "" else Decimal(n / 10);
    var digit := ('0' as int + n % 10) as char;
    assert Decimal(n) == prefix + [digit];
    ParseDecimalSnoc(prefix, digit);
    if n >= 10 {
      DecimalRoundTrip(n / 10);
    }
  }

  /** Distinct numbers have distinct decimal renderings. */
  lemma DecimalInjective(m: nat, n: nat)
    ensures Decimal(m) == Decimal(n) ==> m == n
  {
    DecimalRoundTrip(m);
    DecimalRoundTrip(n);
  }

  /**
   * `s.split('/').pop()`: the text after the last '/', or all of `s` when it
   * holds no '/'; empty when `s` ends with '/'.
   */
  function LastSegment(s: string): (seg: string)
    ensures |seg| <= |s| && seg == s[|s| - |seg|..]
    ensures '/' !in seg
    ensures |seg| < |s| ==> s[|s| - |seg| - 1] == '/'
  {
    if s == [] || s[|s| - 1] == '/' then ""
    else LastSegment(s[..|s| - 1]) + [s[|s| - 1]]
  }

  /** The segment after a final '/' is exactly what follows it. */
  lemma LastSegmentAfterSlash(dir: string, name: string)
    requires |dir| > 0 && dir[|dir| - 1] == '/' && '/' !in name
    ensures LastSegment(dir + name) == name
  {
    var seg := LastSegment(dir + name);
    var s := dir + name;
    assert seg == s[|dir|..];
  }

  /** `${faceId}.jpg`, the file name `saveFaceImage` writes under `public/faces`. */
  function FaceFileName(id: nat): (name: string)
    ensures '/' !in name && |name| > 4
  {
    Decimal(id) + ".jpg"
  }

  /** `/api/faces/${filename}`, the URL `saveFaceImage` returns on success. */
  function FaceImageUrl(id: nat): string {
    "/api/faces/" + FaceFileName(id)
  }

  /**
   * The URL of a saved image leads back to its file: its last segment is the
   * file name, which is not empty and names the record it was saved for.
   */
  lemma FaceImageUrlRoundTrip(id: nat, other: nat)
    ensures LastSegment(FaceImageUrl(id)) == FaceFileName(id) != ""
    ensures FaceFileName(id) == FaceFileName(other) ==> id == other
  {
    LastSegmentAfterSlash("/api/faces/", FaceFileName(id));
    if FaceFileName(id) == FaceFileName(other) {
      var a, b := Decimal(id), Decimal(other);
      assert a == FaceFileName(id)[..|a|];
      assert b == FaceFileName(other)[..|b|];
      DecimalInjective(id, other);
    }
  }
}
