/**
 * `String.prototype.trim` as ECMAScript defines it: leading and trailing
 * WhiteSpace and LineTerminator code points are removed.
 */
module JsString {

  /**
   * WhiteSpace (TAB, VT, FF, SP, NBSP, ZWNBSP and the Unicode space
   * separators of category Zs) and LineTerminator (LF, CR, LS, PS).
   */
  predicate IsJsWhitespace(c: char)
  {
    var n := c as int;
    n == 0x09 || n == 0x0A || n == 0x0B || n == 0x0C || n == 0x0D || n == 0x20
    || n == 0xA0 || n == 0x1680 || (0x2000 <= n <= 0x200A)
    || n == 0x2028 || n == 0x2029 || n == 0x202F || n == 0x205F
    || n == 0x3000 || n == 0xFEFF
  }

  /** The first position at or after `i` that is not whitespace, or `|s|`. */
  function SkipLeading(s: string, i: nat): (k: nat)
    requires i <= |s|
    ensures i <= k <= |s|
    ensures forall m :: i <= m < k ==> IsJsWhitespace(s[m])
    ensures k == |s| || !IsJsWhitespace(s[k])
    decreases |s| - i
  {
    if i < |s| && IsJsWhitespace(s[i]) then SkipLeading(s, i + 1) else i
  }

  /** The end of `s[lo..j]` once trailing whitespace is cut off. */
  function SkipTrailing(s: string, lo: nat, j: nat): (k: nat)
    requires lo <= j <= |s|
    ensures lo <= k <= j
    ensures forall m :: k <= m < j ==> IsJsWhitespace(s[m])
    ensures k == lo || !IsJsWhitespace(s[k - 1])
    decreases j - lo
  {
    if lo < j && IsJsWhitespace(s[j - 1]) then SkipTrailing(s, lo, j - 1) else j
  }

  /**
   * `s.trim()`: a contiguous piece `s[i..j]` of the input, with only
   * whitespace cut off on either side, that neither starts nor ends with
   * whitespace. It is empty exactly when the input is all whitespace.
   */
  function Trim(s: string): (t: string)
    ensures exists i, j ::
              && 0 <= i <= j <= |s| && t == s[i..j]
              && (forall m :: 0 <= m < i ==> IsJsWhitespace(s[m]))
              && (forall m :: j <= m < |s| ==> IsJsWhitespace(s[m]))
    ensures t == [] || (!IsJsWhitespace(t[0]) && !IsJsWhitespace(t[|t| - 1]))
    ensures t == [] <==> forall m :: 0 <= m < |s| ==> IsJsWhitespace(s[m])
  {
    var i := SkipLeading(s, 0);
    var j := SkipTrailing(s, i, |s|);
    assert j > i ==> s[i..j][0] == s[i] && s[i..j][j - i - 1] == s[j - 1];
    s[i..j]
  }

  /** Trimming twice is the same as trimming once. */
  lemma TrimIdempotent(s: string)
    ensures Trim(Trim(s)) == Trim(s)
  {
    var t := Trim(s);
    if t != [] {
      assert SkipLeading(t, 0) == 0;
      assert SkipTrailing(t, 0, |t|) == |t|;
      assert t[0..|t|] == t;
    }
  }
}
