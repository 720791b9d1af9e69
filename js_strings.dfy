/**
 * The two ECMAScript string primitives the contact form relies on:
 * `String.prototype.trim` and the regular-expression class `\s`.
 *
 * An ECMAScript string is a sequence of UTF-16 code units, and both `length`
 * and a regular expression without the `u` flag work code unit by code unit,
 * so strings are modelled as sequences of code units, not of characters.
 */
module JsStrings {

  /** One UTF-16 code unit. */
  newtype CodeUnit = x: int | 0 <= x < 0x1_0000

  /** An ECMAScript string value. */
  type JsString = seq<CodeUnit>

  /**
   * WhiteSpace or LineTerminator (sections 12.2 and 12.3 of ECMA-262): the set
   * that `trim` strips (section 22.1.3.32) and that `\s` matches (section
   * 22.2.2.9). The Zs members are those of Unicode 15.
   */
  predicate IsWs(c: CodeUnit) {
    // TAB, LF, VT, FF, CR
    (0x09 <= c <= 0x0D)
    // SPACE, NO-BREAK SPACE, OGHAM SPACE MARK
    || c == 0x20 || c == 0xA0 || c == 0x1680
    // EN QUAD .. HAIR SPACE
    || (0x2000 <= c <= 0x200A)
    // LINE SEPARATOR, PARAGRAPH SEPARATOR
    || c == 0x2028 || c == 0x2029
    // NARROW NO-BREAK SPACE, MEDIUM MATHEMATICAL SPACE, IDEOGRAPHIC SPACE
    || c == 0x202F || c == 0x205F || c == 0x3000
    // ZERO WIDTH NO-BREAK SPACE (byte order mark)
    || c == 0xFEFF
  }

  /** The code units of a string literal whose characters all lie in the Basic Multilingual Plane. */
  function Lit(s: string): (r: JsString)
    requires forall i | 0 <= i < |s| :: s[i] as int < 0x1_0000
    ensures |r| == |s|
  {
    seq(|s|, i requires 0 <= i < |s| => s[i] as int as CodeUnit)
  }

  predicate AllWs(s: JsString) {
    forall i | 0 <= i < |s| :: IsWs(s[i])
  }

  predicate NoWs(s: JsString) {
    forall i | 0 <= i < |s| :: !IsWs(s[i])
  }

  /** Neither end of `s` is white space: what `trim` leaves behind. */
  predicate Trimmed(s: JsString) {
    s == [] || (!IsWs(s[0]) && !IsWs(s[|s| - 1]))
  }

  /** The index of the first code unit at or after `lo` that is not white space, or `|s|`. */
  function SkipWs(s: JsString, lo: nat): (k: nat)
    requires lo <= |s|
    ensures lo <= k <= |s|
    ensures forall i | lo <= i < k :: IsWs(s[i])
    ensures k < |s| ==> !IsWs(s[k])
    decreases |s| - lo
  {
    if lo == |s| || !IsWs(s[lo]) then lo else SkipWs(s, lo + 1)
  }

  /**
   * Going back from `hi` towards `lo`, the index just past the last code unit
   * that is not white space, or `lo`.
   */
  function SkipWsBack(s: JsString, lo: nat, hi: nat): (k: nat)
    requires lo <= hi <= |s|
    ensures lo <= k <= hi
    ensures forall i | k <= i < hi :: IsWs(s[i])
    ensures lo < k ==> !IsWs(s[k - 1])
  {
    if hi == lo || !IsWs(s[hi - 1]) then hi else SkipWsBack(s, lo, hi - 1)
  }

  /**
   * `String.prototype.trim`: `s` with white space removed from both ends.
   * The result's ends are not white space, it is empty exactly when `s` is all
   * white space, and a string whose ends are already not white space is
   * returned unchanged.
   */
  function Trim(s: JsString): (r: JsString)
    ensures |r| <= |s|
    ensures Trimmed(r)
    ensures r == [] <==> AllWs(s)
    ensures Trimmed(s) ==> r == s
  {
    var a := SkipWs(s, 0);
    var b := SkipWsBack(s, a, |s|);
    s[a..b]
  }

  /**
   * `Trim` keeps exactly the piece between the leading and the trailing white
   * space: for any split of `s` into white space, a piece whose ends are not
   * white space, and white space, `Trim(s)` is that piece.
   */
  lemma TrimIsInnerPiece(s: JsString, a: nat, b: nat)
    requires a <= b <= |s|
    requires AllWs(s[..a]) && AllWs(s[b..])
    requires Trimmed(s[a..b])
    ensures Trim(s) == s[a..b]
  {
  }
}
