/**
 * The few Java, Spring and Apache Commons string utilities the catalogue relies on,
 * with a Java `String` reference modelled as `Option<string>` (`None` is `null`).
 */
module JavaText {

  import opened Wrappers

  /** A Java `String` reference that may be `null`. */
  type JString = Option<string>

  /** commons-lang `StringUtils.isEmpty`: `null` or of length zero. */
  predicate IsEmpty(s: JString) {
    s.None? || |s.value| == 0
  }

  /** Spring `StringUtils.hasLength`: the exact negation of `IsEmpty`. */
  predicate HasLength(s: JString) {
    !IsEmpty(s)
  }

  /** What Java's `+` appends for a string reference: the text, or "null". */
  function Str(s: JString): string {
    if s.Some? then s.value else "null"
  }

  /** True when `s` has a character above U+0020, the characters `String.trim` keeps. */
  ghost predicate HasNonSpace(s: string) {
    exists i :: 0 <= i < |s| && s[i] > ' '
  }

  /** Leading half of `String.trim`: drops characters at or below U+0020 from the front. */
  function TrimStart(s: string): (t: string)
    ensures |t| <= |s| && t == s[|s| - |t|..]
    ensures |t| > 0 ==> t[0] > ' '
    ensures HasNonSpace(t) <==> HasNonSpace(s)
  {
    if |s| > 0 && s[0] <= ' ' then
      var t := TrimStart(s[1..]);
      assert HasNonSpace(s) ==> HasNonSpace(s[1..]) by {
        if HasNonSpace(s) {
          var i :| 0 <= i < |s| && s[i] > ' ';
          assert s[1..][i - 1] > ' ';
        }
      }
      assert HasNonSpace(s[1..]) ==> HasNonSpace(s) by {
        if HasNonSpace(s[1..]) {
          var i :| 0 <= i < |s[1..]| && s[1..][i] > ' ';
          assert s[i + 1] > ' ';
        }
      }
      t
    else
      s
  }

  /** Trailing half of `String.trim`: drops characters at or below U+0020 from the back. */
  function TrimEnd(s: string): (t: string)
    ensures |t| <= |s| && t == s[..|t|]
    ensures |t| > 0 ==> t[|t| - 1] > ' '
    ensures HasNonSpace(t) <==> HasNonSpace(s)
  {
    if |s| > 0 && s[|s| - 1] <= ' ' then
      var t := TrimEnd(s[..|s| - 1]);
      assert HasNonSpace(s) ==> HasNonSpace(s[..|s| - 1]) by {
        if HasNonSpace(s) {
          var i :| 0 <= i < |s| && s[i] > ' ';
          assert s[..|s| - 1][i] > ' ';
        }
      }
      assert HasNonSpace(s[..|s| - 1]) ==> HasNonSpace(s) by {
        if HasNonSpace(s[..|s| - 1]) {
          var i :| 0 <= i < |s| - 1 && s[..|s| - 1][i] > ' ';
          assert s[i] > ' ';
        }
      }
      t
    else
      s
  }

  /**
   * Java's `String.trim`. What the validation rules need of it: the trimmed text is
   * non-empty exactly when the original has a character above U+0020.
   */
  function Trim(s: string): (t: string)
    ensures |t| <= |s|
    ensures |t| > 0 <==> HasNonSpace(s)
    ensures |t| > 0 ==> t[0] > ' ' && t[|t| - 1] > ' '
  {
    var t := TrimEnd(TrimStart(s));
    assert |t| > 0 ==> t[0] == TrimStart(s)[0];
    t
  }

  /**
   * `Character.isWhitespace` on one UTF-16 unit: the ASCII controls TAB..CR and FS..US,
   * the space, and the Unicode space, line and paragraph separators other than the
   * no-break ones (U+00A0, U+2007, U+202F).
   */
  predicate IsWhitespace(c: char) {
    var n := c as int;
    || 0x09 <= n <= 0x0D
    || 0x1C <= n <= 0x20
    || n == 0x1680
    || (0x2000 <= n <= 0x200A && n != 0x2007)
    || n == 0x2028 || n == 0x2029 || n == 0x205F || n == 0x3000
  }

  /** commons-lang3 `StringUtils.isBlank`: `null`, empty, or whitespace only. */
  predicate IsBlank(s: JString) {
    s.None? || forall i :: 0 <= i < |s.value| ==> IsWhitespace(s.value[i])
  }

  /** commons-lang3 `StringUtils.isNotBlank`. */
  predicate IsNotBlank(s: JString) {
    !IsBlank(s)
  }

  const TwoTo31: int := 0x8000_0000
  const TwoTo32: int := 0x1_0000_0000

  /**
   * Java's narrowing cast `(int)` from `long`: keeps the low 32 bits as a signed value.
   */
  function ToInt32(n: int): (r: int)
    ensures -TwoTo31 <= r < TwoTo31
    ensures (n - r) % TwoTo32 == 0
    ensures -TwoTo31 <= n < TwoTo31 ==> r == n
  {
    var low := n % TwoTo32;
    if low >= TwoTo31 then low - TwoTo32 else low
  }
}
