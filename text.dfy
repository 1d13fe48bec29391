/** Character classes and string helpers shared by the server and the browser code. */
module Text {

  /** Characters U+0000..U+001F and U+007F: the class `[\u0000-\u001F\u007F]`. */
  predicate IsControl(c: char)
  {
    c <= '\U{1F}' || c == '\U{7F}'
  }

  /** The characters of the JavaScript class `\s` (WhiteSpace and LineTerminator), which is also
      the set that `String.prototype.trim` removes from both ends. */
  predicate IsSpace(c: char)
  {
    || c == ' ' || c == '\t' || c == '\n' || c == '\U{0B}' || c == '\U{0C}' || c == '\r'
    || c == '\U{A0}' || c == '\U{1680}' || ('\U{2000}' <= c <= '\U{200A}')
    || c == '\U{2028}' || c == '\U{2029}' || c == '\U{202F}' || c == '\U{205F}'
    || c == '\U{3000}' || c == '\U{FEFF}'
  }

  predicate IsAsciiLetterOrDigit(c: char)
  {
    'A' <= c <= 'Z' || 'a' <= c <= 'z' || '0' <= c <= '9'
  }

  /** The class `[a-zA-Z0-9_]`. */
  predicate IsWordChar(c: char)
  {
    IsAsciiLetterOrDigit(c) || c == '_'
  }

  /** No character of `s` is a control character. */
  predicate NoControls(s: string)
  {
    forall i :: 0 <= i < |s| ==> !IsControl(s[i])
  }

  /** The only whitespace character `s` contains is the plain space. */
  predicate OnlyPlainSpaces(s: string)
  {
    forall i :: 0 <= i < |s| ==> IsSpace(s[i]) ==> s[i] == ' '
  }

  /** No two adjacent characters of `s` are whitespace. */
  predicate NoDoubleSpace(s: string)
  {
    forall i :: 0 <= i < |s| - 1 ==> !(IsSpace(s[i]) && IsSpace(s[i + 1]))
  }

  predicate EndsWith(s: string, suffix: string)
  {
    |suffix| <= |s| && s[|s| - |suffix|..] == suffix
  }

  function Min(a: int, b: int): int
  {
    if a <= b then a else b
  }

  /** `s.replace(/[^...]/g, "")`: the characters of `s` that satisfy `p`, in order. */
  function Keep(s: string, p: char -> bool): (r: string)
    ensures |r| <= |s|
    ensures forall i :: 0 <= i < |r| ==> p(r[i]) && r[i] in s
    ensures (forall i :: 0 <= i < |s| ==> p(s[i])) ==> r == s
  {
    if s == [] then [] else (if p(s[0]) then [s[0]] else []) + Keep(s[1..], p)
  }

  /** Keep preserves the order: keeping from a concatenation keeps from each part. */
  lemma {:induction false} KeepConcat(front: string, back: string, p: char -> bool)
    ensures Keep(front + back, p) == Keep(front, p) + Keep(back, p)
    decreases |front|
  {
    if front == [] {
      assert front + back == back;
    } else {
      var all := front + back;
      assert all[0] == front[0] && all[1..] == front[1..] + back;
      KeepConcat(front[1..], back, p);
      var head := if p(front[0]) then [front[0]] else [];
      assert Keep(all, p) == head + Keep(all[1..], p);
      assert Keep(front, p) == head + Keep(front[1..], p);
    }
  }

  /** `s.replace(/\/+$/, "")`: `s` without its trailing run of slashes. */
  function StripTrailingSlashes(s: string): (r: string)
    ensures r <= s
    ensures r == [] || r[|r| - 1] != '/'
    ensures forall i :: |r| <= i < |s| ==> s[i] == '/'
  {
    if s != [] && s[|s| - 1] == '/' then StripTrailingSlashes(s[..|s| - 1]) else s
  }

  /** `s` with its leading whitespace removed (the start half of `trim`). */
  function TrimStart(s: string): (r: string)
    ensures |r| <= |s| && r == s[|s| - |r|..]
    ensures r == [] || !IsSpace(r[0])
    ensures forall i :: 0 <= i < |s| - |r| ==> IsSpace(s[i])
  {
    if s != [] && IsSpace(s[0]) then TrimStart(s[1..]) else s
  }

  /** `s` with its trailing whitespace removed (the end half of `trim`). */
  function TrimEnd(s: string): (r: string)
    ensures r <= s
    ensures r == [] || !IsSpace(r[|r| - 1])
    ensures forall i :: |r| <= i < |s| ==> IsSpace(s[i])
  {
    if s != [] && IsSpace(s[|s| - 1]) then TrimEnd(s[..|s| - 1]) else s
  }

  /** `String.prototype.trim`. */
  function Trim(s: string): (r: string)
    ensures r == [] || (!IsSpace(r[0]) && !IsSpace(r[|r| - 1]))
    ensures var start := |s| - |TrimStart(s)|;
            && start + |r| <= |s| && r == s[start..start + |r|]
            && (forall i :: 0 <= i < start ==> IsSpace(s[i]))
            && (forall i :: start + |r| <= i < |s| ==> IsSpace(s[i]))
  {
    TrimEnd(TrimStart(s))
  }

  /** A string whose ends are not whitespace is its own trim. */
  lemma TrimIdentity(s: string)
    requires s == [] || (!IsSpace(s[0]) && !IsSpace(s[|s| - 1]))
    ensures Trim(s) == s
  {
  }
}
