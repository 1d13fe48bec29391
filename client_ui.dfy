/** The two pure helpers of the chat page's renderer: HTML escaping of user text and the short
    sender label. */
module ClientUi {
  import opened Wrappers

  // ----- escapeHtml -----

  /** `s.replace(/c/g, replacement)` for a single character `c`. */
  function ReplaceChar(s: string, c: char, replacement: string): (r: string)
    ensures c !in s ==> r == s
    ensures replacement != [] ==> |r| >= |s|
  {
    if s == [] then [] else (if s[0] == c then replacement else [s[0]]) + ReplaceChar(s[1..], c, replacement)
  }

  /** The replacement unfolded once at the head. */
  lemma ReplaceCharHead(s: string, c: char, replacement: string)
    requires s != []
    ensures ReplaceChar(s, c, replacement) == (if s[0] == c then replacement else [s[0]]) + ReplaceChar(s[1..], c, replacement)
  {
  }

  /** Replacing distributes over concatenation. */
  lemma {:induction false} ReplaceCharConcat(a: string, b: string, c: char, replacement: string)
    ensures ReplaceChar(a + b, c, replacement) == ReplaceChar(a, c, replacement) + ReplaceChar(b, c, replacement)
    decreases |a|
  {
    if a != [] {
      var head := if a[0] == c then replacement else [a[0]];
      var ab := a + b;
      assert ab[0] == a[0] && ab[1..] == a[1..] + b;
      ReplaceCharHead(ab, c, replacement);
      ReplaceCharHead(a, c, replacement);
      ReplaceCharConcat(a[1..], b, c, replacement);
      var x, y := ReplaceChar(a[1..], c, replacement), ReplaceChar(b, c, replacement);
      assert head + (x + y) == (head + x) + y;
    } else {
      assert a + b == b;
    }
  }

  const Amp := "&amp;"
  const Lt := "&lt;"
  const Gt := "&gt;"
  const Quot := "&quot;"
  const Apos := "&#039;"

  /** `escapeHtml`: five global replacements, `&` first. */
  function EscapeHtml(s: string): (r: string)
    ensures |r| >= |s|
    ensures '&' !in s && '<' !in s && '>' !in s && '"' !in s && '\'' !in s ==> r == s
  {
    ReplaceChar(ReplaceChar(ReplaceChar(ReplaceChar(ReplaceChar(s, '&', Amp), '<', Lt), '>', Gt), '"', Quot), '\'', Apos)
  }

  /** The replacement of one character on its own: a reference definition of the escaping that
      does not depend on the order of the replacements. */
  function EscapeChar(c: char): string
  {
    if c == '&' then Amp
    else if c == '<' then Lt
    else if c == '>' then Gt
    else if c == '"' then Quot
    else if c == '\'' then Apos
    else [c]
  }

  function EscapeEach(s: string): string
  {
    if s == [] then [] else EscapeChar(s[0]) + EscapeEach(s[1..])
  }

  predicate IsSpecial(c: char)
  {
    c == '&' || c == '<' || c == '>' || c == '"' || c == '\''
  }

  /** Each character goes through the chain of replacements as its own entity: because `&` is
      replaced first, no later replacement touches the entities already written. */
  lemma EscapeOneChar(c: char)
    ensures EscapeHtml([c]) == EscapeChar(c)
  {
    if c == '&' {
      EscapeAmp();
    } else if c == '<' {
      EscapeLt();
    } else if c == '>' {
      EscapeGt();
    } else if c == '"' {
      EscapeQuot();
    } else if c == '\'' {
      EscapeApos();
    } else {
      var s := [c];
      assert '&' !in s && '<' !in s && '>' !in s && '"' !in s && '\'' !in s;
    }
  }

  lemma EscapeAmp()
    ensures EscapeHtml("&") == Amp
  {
    var e := Amp;
    assert e == ['&', 'a', 'm', 'p', ';'];
    assert ReplaceChar("&", '&', e) == e;
    assert '<' !in e && '>' !in e && '"' !in e && '\'' !in e;
  }

  lemma EscapeLt()
    ensures EscapeHtml("<") == Lt
  {
    var e := Lt;
    assert e == ['&', 'l', 't', ';'];
    assert ReplaceChar("<", '<', e) == e;
    assert '>' !in e && '"' !in e && '\'' !in e;
  }

  lemma EscapeGt()
    ensures EscapeHtml(">") == Gt
  {
    var e := Gt;
    assert e == ['&', 'g', 't', ';'];
    assert ReplaceChar(">", '>', e) == e;
    assert '"' !in e && '\'' !in e;
  }

  lemma EscapeQuot()
    ensures EscapeHtml("\"") == Quot
  {
    var e := Quot;
    assert e == ['&', 'q', 'u', 'o', 't', ';'];
    assert ReplaceChar("\"", '"', e) == e;
    assert '\'' !in e;
  }

  lemma EscapeApos()
    ensures EscapeHtml("'") == Apos
  {
    var e := Apos;
    assert ReplaceChar("'", '\'', e) == e;
  }

  lemma EscapeHtmlConcat(a: string, b: string)
    ensures EscapeHtml(a + b) == EscapeHtml(a) + EscapeHtml(b)
  {
    var s1a, s1b := ReplaceChar(a, '&', Amp), ReplaceChar(b, '&', Amp);
    ReplaceCharConcat(a, b, '&', Amp);
    var s2a, s2b := ReplaceChar(s1a, '<', Lt), ReplaceChar(s1b, '<', Lt);
    ReplaceCharConcat(s1a, s1b, '<', Lt);
    var s3a, s3b := ReplaceChar(s2a, '>', Gt), ReplaceChar(s2b, '>', Gt);
    ReplaceCharConcat(s2a, s2b, '>', Gt);
    var s4a, s4b := ReplaceChar(s3a, '"', Quot), ReplaceChar(s3b, '"', Quot);
    ReplaceCharConcat(s3a, s3b, '"', Quot);
    ReplaceCharConcat(s4a, s4b, '\'', Apos);
  }

  /** The chain of replacements is the character-by-character escaping. */
  lemma {:induction false} EscapeHtmlIsPerChar(s: string)
    ensures EscapeHtml(s) == EscapeEach(s)
    decreases |s|
  {
    if s != [] {
      assert s == [s[0]] + s[1..];
      EscapeHtmlConcat([s[0]], s[1..]);
      EscapeOneChar(s[0]);
      EscapeHtmlIsPerChar(s[1..]);
    }
  }

  /** Decoding the five entities, left to right; any other character stands for itself. */
  function Unescape(s: string): string
    decreases |s|
  {
    if s == [] then []
    else if s[0] != '&' then [s[0]] + Unescape(s[1..])
    else if |s| >= 5 && s[..5] == Amp then "&" + Unescape(s[5..])
    else if |s| >= 4 && s[..4] == Lt then "<" + Unescape(s[4..])
    else if |s| >= 4 && s[..4] == Gt then ">" + Unescape(s[4..])
    else if |s| >= 6 && s[..6] == Quot then "\"" + Unescape(s[6..])
    else if |s| >= 6 && s[..6] == Apos then "'" + Unescape(s[6..])
    else [s[0]] + Unescape(s[1..])
  }

  /** Decoding undoes the escaping of one character followed by anything. */
  lemma UnescapeStep(c: char, rest: string)
    ensures Unescape(EscapeChar(c) + rest) == [c] + Unescape(rest)
  {
    if c == '&' {
      UnescapeAmp(rest);
    } else if c == '<' {
      UnescapeLt(rest);
    } else if c == '>' {
      UnescapeGt(rest);
    } else if c == '"' {
      UnescapeQuot(rest);
    } else if c == '\'' {
      UnescapeApos(rest);
    } else {
      var s := [c] + rest;
      assert s[0] == c && s[1..] == rest;
    }
  }

  lemma UnescapeAmp(rest: string)
    ensures Unescape(Amp + rest) == "&" + Unescape(rest)
  {
    var s := Amp + rest;
    assert s[0] == '&' && s[..5] == Amp && s[5..] == rest;
  }

  lemma UnescapeLt(rest: string)
    ensures Unescape(Lt + rest) == "<" + Unescape(rest)
  {
    var s := Lt + rest;
    var a := Amp;
    assert s[0] == '&' && s[1] == 'l' && a[1] == 'a';
    assert |s| < 5 || s[..5] != a by { if |s| >= 5 { assert s[..5][1] == 'l'; } }
    assert s[..4] == Lt && s[4..] == rest;
  }

  lemma UnescapeGt(rest: string)
    ensures Unescape(Gt + rest) == ">" + Unescape(rest)
  {
    var s := Gt + rest;
    var a, l := Amp, Lt;
    assert s[0] == '&' && s[1] == 'g' && a[1] == 'a' && l[1] == 'l';
    assert |s| < 5 || s[..5] != a by { if |s| >= 5 { assert s[..5][1] == 'g'; } }
    assert s[..4] != l by { assert s[..4][1] == 'g'; }
    assert s[..4] == Gt && s[4..] == rest;
  }

  lemma UnescapeQuot(rest: string)
    ensures Unescape(Quot + rest) == "\"" + Unescape(rest)
  {
    var s := Quot + rest;
    var a, l, g := Amp, Lt, Gt;
    assert s[0] == '&' && s[1] == 'q' && a[1] == 'a' && l[1] == 'l' && g[1] == 'g';
    assert s[..5] != a by { assert s[..5][1] == 'q'; }
    assert s[..4] != l && s[..4] != g by { assert s[..4][1] == 'q'; }
    assert s[..6] == Quot && s[6..] == rest;
  }

  lemma UnescapeApos(rest: string)
    ensures Unescape(Apos + rest) == "'" + Unescape(rest)
  {
    var s := Apos + rest;
    var a, l, g, q := Amp, Lt, Gt, Quot;
    assert s[0] == '&' && s[1] == '#' && a[1] == 'a' && l[1] == 'l' && g[1] == 'g' && q[1] == 'q';
    assert s[..5] != a by { assert s[..5][1] == '#'; }
    assert s[..4] != l && s[..4] != g by { assert s[..4][1] == '#'; }
    assert s[..6] != q by { assert s[..6][1] == '#'; }
    assert s[..6] == Apos && s[6..] == rest;
  }

  /** Decoding the entities recovers the original text. */
  lemma {:induction false} UnescapeEscapeHtml(s: string)
    ensures Unescape(EscapeHtml(s)) == s
  {
    EscapeHtmlIsPerChar(s);
    UnescapeEachRoundTrip(s);
  }

  lemma {:induction false} UnescapeEachRoundTrip(s: string)
    ensures Unescape(EscapeEach(s)) == s
    decreases |s|
  {
    if s != [] {
      UnescapeStep(s[0], EscapeEach(s[1..]));
      UnescapeEachRoundTrip(s[1..]);
    }
  }

  /** The escaped text holds none of `<`, `>`, `"` or `'`. */
  lemma {:induction false} EscapeHtmlHasNoMarkup(s: string)
    ensures forall i :: 0 <= i < |EscapeHtml(s)| ==> EscapeHtml(s)[i] !in "<>\"'"
  {
    EscapeHtmlIsPerChar(s);
    EscapeEachHasNoMarkup(s);
  }

  lemma {:induction false} EscapeEachHasNoMarkup(s: string)
    ensures forall i :: 0 <= i < |EscapeEach(s)| ==> EscapeEach(s)[i] !in "<>\"'"
    decreases |s|
  {
    if s != [] {
      EscapeEachHasNoMarkup(s[1..]);
      var e := EscapeChar(s[0]);
      var rest := EscapeEach(s[1..]);
      forall i | 0 <= i < |e|
        ensures e[i] !in "<>\"'"
      {
        EscapeCharHasNoMarkup(s[0], i);
      }
      assert EscapeEach(s) == e + rest;
      forall i | 0 <= i < |e + rest|
        ensures (e + rest)[i] !in "<>\"'"
      {
        if i >= |e| {
          assert (e + rest)[i] == rest[i - |e|];
        }
      }
    }
  }

  lemma EscapeCharHasNoMarkup(c: char, i: nat)
    requires i < |EscapeChar(c)|
    ensures EscapeChar(c)[i] !in "<>\"'"
  {
    if c == '&' {
      assert Amp == ['&', 'a', 'm', 'p', ';'];
    } else if c == '<' {
      assert Lt == ['&', 'l', 't', ';'];
    } else if c == '>' {
      assert Gt == ['&', 'g', 't', ';'];
    } else if c == '"' {
      assert Quot == ['&', 'q', 'u', 'o', 't', ';'];
    } else if c == '\'' {
      assert Apos == ['&', '#', '0', '3', '9', ';'];
    }
  }

  /** `t` starts with one of the five entities. */
  predicate StartsWithEntity(t: string)
  {
    Amp <= t || Lt <= t || Gt <= t || Quot <= t || Apos <= t
  }

  /** Every `&` of the escaped text starts an entity, so no `&` of the input survives bare. */
  lemma {:induction false} AmpersandsStartEntities(s: string)
    ensures forall i :: 0 <= i < |EscapeHtml(s)| && EscapeHtml(s)[i] == '&' ==> StartsWithEntity(EscapeHtml(s)[i..])
  {
    EscapeHtmlIsPerChar(s);
    EachAmpersandStartsEntity(s);
  }

  lemma {:induction false} EachAmpersandStartsEntity(s: string)
    ensures forall i :: 0 <= i < |EscapeEach(s)| && EscapeEach(s)[i] == '&' ==> StartsWithEntity(EscapeEach(s)[i..])
    decreases |s|
  {
    if s != [] {
      EachAmpersandStartsEntity(s[1..]);
      var e := EscapeChar(s[0]);
      var rest := EscapeEach(s[1..]);
      var t := e + rest;
      assert EscapeEach(s) == t;
      forall i | 0 <= i < |t| && t[i] == '&'
        ensures StartsWithEntity(t[i..])
      {
        if i < |e| {
          EntityAmpersandOnlyFirst(s[0], i);
          assert t[i..] == e + rest;
          assert e <= t[i..];
        } else {
          assert t[i..] == rest[i - |e|..];
        }
      }
    }
  }

  /** Within one character's escaping, an `&` appears only at the start of an entity. */
  lemma EntityAmpersandOnlyFirst(c: char, i: nat)
    requires i < |EscapeChar(c)| && EscapeChar(c)[i] == '&'
    ensures i == 0 && IsSpecial(c)
    ensures EscapeChar(c) == Amp || EscapeChar(c) == Lt || EscapeChar(c) == Gt || EscapeChar(c) == Quot || EscapeChar(c) == Apos
  {
    if c == '&' {
      assert Amp == ['&', 'a', 'm', 'p', ';'];
    } else if c == '<' {
      assert Lt == ['&', 'l', 't', ';'];
    } else if c == '>' {
      assert Gt == ['&', 'g', 't', ';'];
    } else if c == '"' {
      assert Quot == ['&', 'q', 'u', 'o', 't', ';'];
    } else if c == '\'' {
      assert Apos == ['&', '#', '0', '3', '9', ';'];
    }
  }

  /** Text without any of `& < > " '` is returned as it is. */
  lemma PlainTextUnchanged(s: string)
    requires forall i :: 0 <= i < |s| ==> !IsSpecial(s[i])
    ensures EscapeHtml(s) == s
  {
    assert '&' !in s && '<' !in s && '>' !in s && '"' !in s && '\'' !in s;
  }

  // ----- truncateSender -----

  const MaxSenderChars := 8
  const UnknownSender := "unknown"

  /** `truncateSender`: "unknown" without a user id, otherwise its first eight characters. */
  function TruncateSender(userId: Option<string>): (r: string)
    ensures userId.None? || userId.value == [] ==> r == UnknownSender
    ensures userId.Some? && userId.value != [] ==> r <= userId.value && |r| == if |userId.value| <= MaxSenderChars then |userId.value| else MaxSenderChars
  {
    match userId
    case None => UnknownSender
    case Some(id) =>
      if id == [] then UnknownSender
      else if |id| > MaxSenderChars then id[..MaxSenderChars] else id
  }

  /** A label is its own label: truncating twice is truncating once. */
  lemma TruncateSenderIdempotent(userId: Option<string>)
    ensures TruncateSender(Some(TruncateSender(userId))) == TruncateSender(userId)
  {
    var u := UnknownSender;
    assert |u| == 7;
  }
}
