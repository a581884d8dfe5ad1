/** The pieces of JavaScript string semantics the components rely on: the
    whitespace class shared by the regular-expression escape `\s` and by
    `String.prototype.trim`, `trim` itself, and the UTF-16 `length` of a
    string. Strings are sequences of Unicode scalar values. */
module JsText {

  /** ECMAScript WhiteSpace and LineTerminator code points: exactly the
      characters matched by `\s` and removed by `trim`. */
  predicate IsWhitespace(c: char) {
    var n := c as int;
    || n == 0x09 || n == 0x0A || n == 0x0B || n == 0x0C || n == 0x0D
    || n == 0x20 || n == 0xA0 || n == 0x1680
    || (0x2000 <= n <= 0x200A)
    || n == 0x2028 || n == 0x2029 || n == 0x202F || n == 0x205F
    || n == 0x3000 || n == 0xFEFF
  }

  predicate AllWhitespace(s: string) {
    forall k :: 0 <= k < |s| ==> IsWhitespace(s[k])
  }

  /** Neither end of `s` is a whitespace character. */
  predicate Trimmed(s: string) {
    s == [] || (!IsWhitespace(s[0]) && !IsWhitespace(s[|s| - 1]))
  }

  /** The index of the first non-whitespace character at or after `i`, or
      `|s|` when there is none. */
  function SkipBlanks(s: string, i: nat): (r: nat)
    requires i <= |s|
    decreases |s| - i
    ensures i <= r <= |s|
    ensures forall k :: i <= k < r ==> IsWhitespace(s[k])
    ensures r == |s| || !IsWhitespace(s[r])
  {
    if i < |s| && IsWhitespace(s[i]) then SkipBlanks(s, i + 1) else i
  }

  /** Going back from `j`, but not below `lo`: the index just after the last
      non-whitespace character of `s[lo..j]`, or `lo` when there is none. */
  function SkipBlanksBack(s: string, lo: nat, j: nat): (r: nat)
    requires lo <= j <= |s|
    decreases j
    ensures lo <= r <= j
    ensures forall k :: r <= k < j ==> IsWhitespace(s[k])
    ensures r == lo || !IsWhitespace(s[r - 1])
  {
    if j > lo && IsWhitespace(s[j - 1]) then SkipBlanksBack(s, lo, j - 1) else j
  }

  /** `String.prototype.trim`: the slice of `s` left once the whitespace at
      both ends is gone. */
  function Trim(s: string): (r: string)
    ensures Trimmed(r)
    ensures exists i, j :: 0 <= i <= j <= |s| && r == s[i..j]
                           && AllWhitespace(s[..i]) && AllWhitespace(s[j..])
  {
    var i := SkipBlanks(s, 0);
    var j := SkipBlanksBack(s, i, |s|);
    assert AllWhitespace(s[..i]) && AllWhitespace(s[j..]);
    s[i..j]
  }

  /** Trimming an all-whitespace string gives the empty string, and only
      such strings trim to empty. */
  lemma TrimEmptyIffBlank(s: string)
    ensures Trim(s) == [] <==> AllWhitespace(s)
  {
  }

  /** Trimming twice is trimming once. */
  lemma TrimIdempotent(s: string)
    ensures Trim(Trim(s)) == Trim(s)
  {
  }

  /** The positions of the code points above U+FFFF, the ones UTF-16
      writes as a surrogate pair. */
  ghost function AstralPositions(s: string): set<int> {
    set k | 0 <= k < |s| && s[k] as int > 0xFFFF
  }

  /** The UTF-16 `length` of a string: code points above U+FFFF take two
      code units (a surrogate pair), every other one takes one. */
  function Utf16Length(s: string): (n: nat)
    ensures n == |s| + |AstralPositions(s)|
    ensures |s| <= n <= 2 * |s|
    ensures n == 0 <==> s == []
    ensures (forall k :: 0 <= k < |s| ==> s[k] as int <= 0xFFFF) ==> n == |s|
  {
    if s == [] then 0
    else
      AstralSnoc(s);
      Utf16Length(s[..|s| - 1]) + (if s[|s| - 1] as int > 0xFFFF then 2 else 1)
  }

  /** The astral positions of a non-empty string: those of all but its last
      code point, plus the last position when that code point is astral. */
  lemma AstralSnoc(s: string)
    requires s != []
    ensures var init, last := AstralPositions(s[..|s| - 1]), |s| - 1;
            && last !in init
            && AstralPositions(s) == if s[last] as int > 0xFFFF then init + {last} else init
  {
  }

  /** Three emoji are three code points but six UTF-16 code units. */
  lemma AstralLength()
    ensures Utf16Length("\U{1F600}\U{1F600}\U{1F600}") == 6
  {
  }
}
