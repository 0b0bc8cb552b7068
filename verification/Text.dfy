/**
 The few Python string operations the source scripts lean on, over sequences of
 code points.
 */
module Text {

  datatype Option<+T> = None | Some(value: T)

  /** `str.isspace` of one character. */
  predicate IsSpace(c: char) {
    || '\t' <= c <= '\r'
    || '\U{1c}' <= c <= ' '
    || c == '\U{85}' || c == '\U{a0}' || c == '\U{1680}'
    || '\U{2000}' <= c <= '\U{200a}'
    || c == '\U{2028}' || c == '\U{2029}' || c == '\U{202f}' || c == '\U{205f}' || c == '\U{3000}'
  }

  // A word character of a regular expression; ASCII only.
  predicate WordChar(c: char) {
    'a' <= c <= 'z' || 'A' <= c <= 'Z' || '0' <= c <= '9' || c == '_'
  }

  /** The white space of the Unicode Standard that one character of a Python string can be, by code point. */
  lemma SpaceCodes(c: char)
    ensures IsSpace(c) <==>
            var n := c as int;
            || 9 <= n <= 13 || 28 <= n <= 32 || n == 133 || n == 160 || n == 5760 || 8192 <= n <= 8202
            || n == 8232 || n == 8233 || n == 8239 || n == 8287 || n == 12288
  {
  }

  lemma WordCodes(c: char)
    ensures WordChar(c) <==>
            var n := c as int; 48 <= n <= 57 || 65 <= n <= 90 || n == 95 || 97 <= n <= 122
  {
  }

  predicate AllSpace(s: string) {
    forall i :: 0 <= i < |s| ==> IsSpace(s[i])
  }

  function LeadingSpace(s: string): (k: nat)
    ensures k <= |s| && forall i :: 0 <= i < k ==> IsSpace(s[i])
    ensures k < |s| ==> !IsSpace(s[k])
  {
    if s != "" && IsSpace(s[0]) then 1 + LeadingSpace(s[1..]) else 0
  }

  function SolidLength(s: string): (k: nat)
    ensures k <= |s| && forall i :: k <= i < |s| ==> IsSpace(s[i])
    ensures k > 0 ==> !IsSpace(s[k - 1])
  {
    if s != "" && IsSpace(s[|s| - 1]) then SolidLength(s[..|s| - 1]) else |s|
  }

  function LStrip(s: string): string {
    s[LeadingSpace(s)..]
  }

  function RStrip(s: string): string {
    s[..SolidLength(s)]
  }

  function Strip(s: string): string {
    RStrip(LStrip(s))
  }

  predicate StartsWith(s: string, prefix: string) {
    prefix <= s
  }

  // Stripping drops the leading white space, then keeps everything up to the last
  // character that is not white space.
  lemma StripLeading(pad: string, s: string)
    requires AllSpace(pad) && s != "" && !IsSpace(s[0])
    ensures Strip(pad + s) == RStrip(s)
    ensures RStrip(s) != "" && RStrip(s)[0] == s[0]
  {
    var t := pad + s;
    assert t[|pad|] == s[0];
    assert forall i :: 0 <= i < |pad| ==> t[i] == pad[i];
    assert LeadingSpace(t) == |pad| && t[|pad|..] == s;
  }

  lemma RStripIsLongest(s: string, k: nat)
    requires k <= |s| && AllSpace(s[k..]) && (k > 0 ==> !IsSpace(s[k - 1]))
    ensures RStrip(s) == s[..k]
  {
    assert forall i :: k <= i < |s| ==> s[i] == s[k..][i - k];
    assert SolidLength(s) == k;
  }

  lemma StripSolid(s: string)
    requires s != "" && !IsSpace(s[0]) && !IsSpace(s[|s| - 1])
    ensures Strip(s) == s
  {
  }

  lemma StripTwice(s: string)
    ensures Strip(Strip(s)) == Strip(s)
  {
    var t := Strip(s);
    if t != "" {
      assert t[0] == LStrip(s)[0] == s[LeadingSpace(s)];
      StripSolid(t);
    }
  }

  function Join(parts: seq<string>, sep: string): string {
    if parts == [] then ""
    else if |parts| == 1 then parts[0]
    else parts[0] + sep + Join(parts[1..], sep)
  }
}
