/**
 * The string operations the two server actions rely on: `String.prototype.includes`,
 * the first-occurrence search behind `split`, `toLowerCase` and `split('/').pop()`.
 */
module Text {
  import opened Wrappers

  /** `pat` occurs in `s` starting at index `i`. */
  predicate OccursAt(s: string, pat: string, i: int) {
    0 <= i && i + |pat| <= |s| && s[i..i + |pat|] == pat
  }

  /** The first index at which `pat` occurs in `s`, or `None` when it does not occur. */
  function IndexOf(s: string, pat: string): (r: Option<nat>)
    ensures r.Some? ==> OccursAt(s, pat, r.value)
    ensures forall i :: OccursAt(s, pat, i) ==> r.Some? && r.value <= i
    decreases |s|
  {
    if pat <= s then
      Some(0)
    else if s == [] then
      None
    else
      assert !OccursAt(s, pat, 0);
      assert forall i :: OccursAt(s, pat, i) && i > 0 ==> OccursAt(s[1..], pat, i - 1) by {
        forall i | OccursAt(s, pat, i) && i > 0 ensures OccursAt(s[1..], pat, i - 1) {
          assert s[1..][i - 1..i - 1 + |pat|] == s[i..i + |pat|];
        }
      }
      match IndexOf(s[1..], pat)
      case None => None
      case Some(k) =>
        assert s[1..][k..k + |pat|] == s[k + 1..k + 1 + |pat|];
        Some(k + 1)
  }

  /** `String.prototype.includes`: `pat` occurs somewhere in `s`. */
  predicate Contains(s: string, pat: string) {
    IndexOf(s, pat).Some?
  }

  lemma ContainsAt(s: string, pat: string, i: int)
    requires OccursAt(s, pat, i)
    ensures Contains(s, pat)
  {
  }

  /**
   * `toLowerCase` on one character, for the ASCII letters: no capital survives, and only a
   * capital changes, to the small letter 32 code points above it.
   */
  function LowerChar(c: char): (d: char)
    ensures !('A' <= d <= 'Z')
    ensures d != c ==> 'A' <= c <= 'Z' && d as int == c as int + 32
  {
    if 'A' <= c <= 'Z' then (c as int + 32) as char else c
  }

  /** `toLowerCase`, character by character. */
  function ToLower(s: string): (r: string)
    ensures |r| == |s|
    ensures forall i :: 0 <= i < |s| ==> r[i] == LowerChar(s[i])
  {
    seq(|s|, i requires 0 <= i < |s| => LowerChar(s[i]))
  }

  /** Lower-casing works character by character, so it distributes over concatenation. */
  lemma ToLowerAppend(a: string, b: string)
    ensures ToLower(a + b) == ToLower(a) + ToLower(b)
  {
    assert forall i :: 0 <= i < |a + b| ==> ToLower(a + b)[i] == (ToLower(a) + ToLower(b))[i];
  }

  /** Lower-casing twice is lower-casing once. */
  lemma ToLowerIdempotent(s: string)
    ensures ToLower(ToLower(s)) == ToLower(s)
  {
    var t := ToLower(s);
    assert forall i :: 0 <= i < |s| ==> LowerChar(t[i]) == t[i];
  }

  /**
   * `s.split(sep).pop()`: the text after the last `sep`, or the whole of `s`
   * when `sep` does not occur.
   */
  function LastSegment(s: string, sep: char): (r: string)
    ensures sep !in r
    ensures |r| <= |s| && r == s[|s| - |r|..]
    ensures |r| < |s| ==> s[|s| - |r| - 1] == sep
    ensures sep !in s ==> r == s
    decreases |s|
  {
    if s == [] then []
    else if s[|s| - 1] == sep then []
    else
      var r := LastSegment(s[..|s| - 1], sep) + [s[|s| - 1]];
      assert s[..|s| - 1] + [s[|s| - 1]] == s;
      r
  }

  /**
   * The last segment of `base + [sep] + key` is `key` exactly when `key` holds no separator:
   * that is what lets the cleanup step recover an object key from its public URL.
   */
  lemma {:induction false} LastSegmentOfJoin(base: string, sep: char, key: string)
    ensures LastSegment(base + [sep] + key, sep) == key <==> sep !in key
  {
    if sep !in key {
      LastSegmentSuffix(base + [sep], key, sep);
    }
  }

  /** Appending a separator-free suffix after a separator yields that suffix. */
  lemma {:induction false} LastSegmentSuffix(prefix: string, key: string, sep: char)
    requires |prefix| > 0 && prefix[|prefix| - 1] == sep
    requires sep !in key
    ensures LastSegment(prefix + key, sep) == key
    decreases |key|
  {
    var s := prefix + key;
    if key == [] {
      assert s == prefix;
    } else {
      var init := key[..|key| - 1];
      assert s[..|s| - 1] == prefix + init;
      assert s[|s| - 1] == key[|key| - 1];
      LastSegmentSuffix(prefix, init, sep);
      assert init + [key[|key| - 1]] == key;
    }
  }
}
