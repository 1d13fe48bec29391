/** Pure validators, normalizers and generators of the server (server/utils.js). */
module Utils {
  import opened Wrappers
  import opened Text

  /** The character at position `k` of "ABC...Zabc...z0...9". */
  function AlphabetChar(k: int): (c: char)
    requires 0 <= k < 62
    ensures IsAsciiLetterOrDigit(c)
  {
    if k < 26 then ('A' as int + k) as char
    else if k < 52 then ('a' as int + k - 26) as char
    else ('0' as int + k - 52) as char
  }

  /** ALPHANUMERIC: the 26 upper-case letters, the 26 lower-case letters and the 10 digits, in
      that order; random identifiers are drawn from it. */
  function Alphanumeric(): (r: string)
    ensures |r| == 62
  {
    seq(62, AlphabetChar)
  }

  const MinDurationMinutes := 5
  const MaxDurationMinutes := 1440
  const MinParticipants := 2
  const MaxParticipants := 50
  const MinuteMs := 60 * 1000

  predicate IsAlphanumeric(s: string)
  {
    forall i :: 0 <= i < |s| ==> s[i] in Alphanumeric()
  }

  /** Exactly the ASCII letters and digits are in the alphabet. */
  lemma AlphanumericChars(c: char)
    ensures c in Alphanumeric() <==> IsAsciiLetterOrDigit(c)
  {
    if 'A' <= c <= 'Z' {
      assert Alphanumeric()[c as int - 'A' as int] == c;
    } else if 'a' <= c <= 'z' {
      assert Alphanumeric()[26 + c as int - 'a' as int] == c;
    } else if '0' <= c <= '9' {
      assert Alphanumeric()[52 + c as int - '0' as int] == c;
    }
  }

  // ----- random identifiers (shape only) -----

  /** A string of `length` characters, each drawn from the alphanumeric alphabet. */
  method RandomString(length: nat) returns (output: string)
    ensures |output| == length
    ensures IsAlphanumeric(output)
  {
    output := "";
    var i := 0;
    while i < length
      invariant 0 <= i <= length
      invariant |output| == i
      invariant IsAlphanumeric(output)
    {
      // randomInt(0, ALPHANUMERIC.length): any index of the alphabet
      var k :| 0 <= k < |Alphanumeric()|;
      output := output + [Alphanumeric()[k]];
      i := i + 1;
    }
  }

  predicate IsUserIdShape(s: string)
  {
    |s| == 10 && s[..5] == "user_" && IsAlphanumeric(s[5..])
  }

  predicate IsPrivateSessionIdShape(s: string)
  {
    |s| == 18 && s[..8] == "private_" && IsAlphanumeric(s[8..])
  }

  predicate IsPasswordShape(s: string)
  {
    |s| == 8 && IsAlphanumeric(s)
  }

  method GenerateUserId() returns (id: string)
    ensures IsUserIdShape(id)
  {
    var suffix := RandomString(5);
    id := "user_" + suffix;
    assert id[5..] == suffix;
  }

  /** A generated user id, known to be a normal user id. */
  method GenerateNormalUserId() returns (id: string)
    ensures IsUserIdShape(id) && IsNormalUserId(id)
  {
    id := GenerateUserId();
    UserIdShapeChars(id);
  }

  method GeneratePrivateSessionId() returns (id: string)
    ensures IsPrivateSessionIdShape(id)
  {
    var suffix := RandomString(10);
    id := "private_" + suffix;
    assert id[8..] == suffix;
  }

  method GeneratePassword() returns (password: string)
    ensures IsPasswordShape(password)
  {
    password := RandomString(8);
  }

  // ----- sanitizeText -----

  /** Every control character becomes a space. */
  function ReplaceControls(s: string): (r: string)
    ensures |r| == |s|
    ensures NoControls(r)
    ensures forall i :: 0 <= i < |s| ==> r[i] == s[i] || r[i] == ' '
  {
    seq(|s|, i requires 0 <= i < |s| => if IsControl(s[i]) then ' ' else s[i])
  }

  /** `s.replace(/\s+/g, " ")`: every maximal run of whitespace becomes one space. */
  function CollapseSpaces(s: string): (r: string)
    ensures |r| <= |s|
    ensures NoDoubleSpace(r)
    ensures OnlyPlainSpaces(r)
    ensures NoControls(s) ==> NoControls(r)
    ensures r != [] ==> (IsSpace(r[0]) <==> IsSpace(s[0]))
    decreases |s|
  {
    if s == [] then []
    else if IsSpace(s[0]) then [' '] + CollapseSpaces(TrimStart(s))
    else [s[0]] + CollapseSpaces(s[1..])
  }

  /** The three properties sanitized text has. */
  predicate IsClean(s: string)
  {
    NoControls(s) && OnlyPlainSpaces(s) && NoDoubleSpace(s)
  }

  /** Any piece of clean text is clean. */
  lemma CleanSlice(s: string, lo: nat, hi: nat)
    requires IsClean(s)
    requires lo <= hi <= |s|
    ensures IsClean(s[lo..hi])
  {
    var t := s[lo..hi];
    forall i | 0 <= i < |t| - 1
      ensures !(IsSpace(t[i]) && IsSpace(t[i + 1]))
    {
      assert t[i] == s[lo + i] && t[i + 1] == s[lo + i + 1];
    }
  }

  /** `value.replace(controls, " ").replace(/\s+/g, " ").trim()` for a string value. */
  function CleanText(s: string): (r: string)
    ensures |r| <= |s|
    ensures IsClean(r)
    ensures r == [] || !IsSpace(r[0])
  {
    var collapsed := CollapseSpaces(ReplaceControls(s));
    var start := TrimStart(collapsed);
    var cleaned := TrimEnd(start);
    CleanTrimmed(collapsed);
    cleaned
  }

  /** Trimming clean text leaves clean text. */
  lemma CleanTrimmed(s: string)
    requires IsClean(s)
    ensures IsClean(Trim(s))
  {
    var start := TrimStart(s);
    CleanSlice(s, |s| - |start|, |s|);
    assert s[|s| - |start|..|s|] == start;
    var t := TrimEnd(start);
    CleanSlice(start, 0, |t|);
    assert start[0..|t|] == t;
  }

  /** `sanitizeText(value, maxLength)`: "" for a non-string; otherwise controls become spaces,
      whitespace runs collapse to one space, both ends are trimmed and the result is cut to
      `maxLength` characters. */
  function SanitizeText(value: Option<string>, maxLength: nat): (r: string)
    ensures value.None? ==> r == []
    ensures |r| <= maxLength
    ensures value.Some? ==> |r| <= |value.value|
    ensures NoControls(r)
    ensures OnlyPlainSpaces(r)
    ensures NoDoubleSpace(r)
    ensures r == [] || !IsSpace(r[0])
  {
    match value
    case None => []
    case Some(s) =>
      var cleaned := CleanText(s);
      CleanSlice(cleaned, 0, Min(maxLength, |cleaned|));
      cleaned[..Min(maxLength, |cleaned|)]
  }

  /** Collapsing text that is already clean changes nothing. */
  lemma {:induction false} CollapseFixpoint(s: string)
    requires IsClean(s)
    ensures CollapseSpaces(s) == s
  {
    if s != [] {
      var rest := s[1..];
      assert IsClean(rest) by {
        CleanSlice(s, 1, |s|);
        assert s[1..|s|] == rest;
      }
      CollapseFixpoint(rest);
      if IsSpace(s[0]) {
        assert TrimStart(s) == rest by {
          assert rest == [] || !IsSpace(rest[0]) by {
            if rest != [] {
              assert rest[0] == s[1];
            }
          }
        }
        assert s == [' '] + rest;
      } else {
        assert s == [s[0]] + rest;
      }
    }
  }

  /** Clean text without whitespace at either end is its own cleaned form. */
  lemma CleanTextIdentity(s: string)
    requires IsClean(s)
    requires s == [] || (!IsSpace(s[0]) && !IsSpace(s[|s| - 1]))
    ensures CleanText(s) == s
  {
    assert ReplaceControls(s) == s;
    CollapseFixpoint(s);
    TrimIdentity(s);
  }

  /** A string that is already clean and short enough comes back unchanged. */
  lemma SanitizeKeepsCleanText(s: string, maxLength: nat)
    requires |s| <= maxLength
    requires IsClean(s)
    requires s == [] || (!IsSpace(s[0]) && !IsSpace(s[|s| - 1]))
    ensures SanitizeText(Some(s), maxLength) == s
  {
    CleanTextIdentity(s);
  }

  /** The cut may leave a trailing space, which a second pass removes, so sanitizeText is not
      idempotent: "x y" cut to two characters is "x ", and "x " sanitizes to "x". */
  lemma SanitizeIsNotIdempotent(x: char, y: char)
    requires IsWordChar(x) && IsWordChar(y)
    ensures SanitizeText(Some([x, ' ', y]), 2) == [x, ' ']
    ensures SanitizeText(Some([x, ' ']), 2) == [x]
  {
    var s := [x, ' ', y];
    assert IsClean(s);
    CleanTextIdentity(s);
    assert s[..2] == [x, ' '];
    var t := [x, ' '];
    assert ReplaceControls(t) == t;
    assert TrimStart([' ']) == [];
    assert CollapseSpaces([' ']) == [' '];
    assert t[1..] == [' '];
    assert CollapseSpaces(t) == t;
    assert TrimStart(t) == t;
    assert t[..1] == [x];
    assert TrimEnd(t) == [x];
  }

  /** Letters, digits and the underscore are neither whitespace nor control characters. */
  lemma WordCharsArePlain(s: string)
    requires forall i :: 0 <= i < |s| ==> IsWordChar(s[i])
    ensures IsClean(s)
    ensures forall i :: 0 <= i < |s| ==> !IsSpace(s[i])
  {
  }

  // ----- integer validators -----

  /** `validateDurationMinutes` over the already-parsed integer (None when parsing failed). */
  function ValidateDurationMinutes(value: Option<int>): (r: Result<int, AppError>)
    ensures r.Success? <==> value.Some? && MinDurationMinutes <= value.value <= MaxDurationMinutes
    ensures r.Success? ==> r.value == value.value
    ensures r.Failure? ==> r.error.code == "INVALID_DURATION" && IsRaised(r.error)
  {
    if value.None? || value.value < MinDurationMinutes || value.value > MaxDurationMinutes then
      Failure(AppError("INVALID_DURATION", "Invalid duration. Use 5 to 1440 minutes."))
    else
      Success(value.value)
  }

  /** `validateMaxParticipants` over the already-parsed integer (None when parsing failed). */
  function ValidateMaxParticipants(value: Option<int>): (r: Result<int, AppError>)
    ensures r.Success? <==> value.Some? && MinParticipants <= value.value <= MaxParticipants
    ensures r.Success? ==> r.value == value.value
    ensures r.Failure? ==> r.error.code == "INVALID_MAX_PARTICIPANTS" && IsRaised(r.error)
  {
    if value.None? || value.value < MinParticipants || value.value > MaxParticipants then
      Failure(AppError("INVALID_MAX_PARTICIPANTS", "Invalid participant limit. Use 2 to 50."))
    else
      Success(value.value)
  }

  // ----- edit window -----

  /** `isWithinEditWindow(timestamp, windowMinutes)` read at clock `now` (ms); `timestamp` is None
      when it does not parse to a date. */
  function IsWithinEditWindow(timestamp: Option<int>, windowMinutes: int, now: int): (r: bool)
    ensures r <==> timestamp.Some? && now <= timestamp.value + windowMinutes * MinuteMs
  {
    match timestamp
    case None => false
    case Some(ts) => now - ts <= windowMinutes * MinuteMs
  }

  /** Once the window has closed it stays closed as the clock advances. */
  lemma EditWindowStaysClosed(timestamp: Option<int>, windowMinutes: int, now: int, later: int)
    requires now <= later
    requires !IsWithinEditWindow(timestamp, windowMinutes, now)
    ensures !IsWithinEditWindow(timestamp, windowMinutes, later)
  {
  }

  /** A ten-minute window: open at 9m59s, open exactly at 10m, closed at 10m01s. */
  lemma TenMinuteWindowBoundary(ts: int)
    ensures IsWithinEditWindow(Some(ts), 10, ts + 9 * MinuteMs + 59000)
    ensures IsWithinEditWindow(Some(ts), 10, ts + 10 * MinuteMs)
    ensures !IsWithinEditWindow(Some(ts), 10, ts + 10 * MinuteMs + 1000)
  {
  }

  // ----- normalizeUserId -----

  /** `normalizeUserId`: sanitize to at most 32 characters, then drop every character outside
      `[A-Za-z0-9_]`. */
  function NormalizeUserId(input: Option<string>): (r: string)
    ensures IsNormalUserId(r)
    ensures input.None? ==> r == []
  {
    var cleaned := SanitizeText(input, MaxUserIdLength);
    if cleaned == [] then [] else Keep(cleaned, IsWordChar)
  }

  const MaxUserIdLength := 32

  /** A user id in normal form: at most 32 characters, all from `[A-Za-z0-9_]`. */
  predicate IsNormalUserId(s: string)
  {
    |s| <= MaxUserIdLength && forall i :: 0 <= i < |s| ==> IsWordChar(s[i])
  }

  /** Normalization leaves a string unchanged exactly when it is already in normal form. */
  lemma NormalUserIdFixedPoints(s: string)
    ensures NormalizeUserId(Some(s)) == s <==> IsNormalUserId(s)
  {
    if IsNormalUserId(s) {
      WordCharsArePlain(s);
      SanitizeKeepsCleanText(s, MaxUserIdLength);
    }
  }

  /** Normalizing a normalized user id changes nothing. */
  lemma NormalizeUserIdIdempotent(input: Option<string>)
    ensures NormalizeUserId(Some(NormalizeUserId(input))) == NormalizeUserId(input)
  {
    NormalUserIdFixedPoints(NormalizeUserId(input));
  }

  /** A generated user id survives normalization unchanged. */
  lemma GeneratedUserIdIsNormal(id: string)
    requires IsUserIdShape(id)
    ensures IsNormalUserId(id)
    ensures NormalizeUserId(Some(id)) == id
  {
    UserIdShapeChars(id);
    NormalUserIdFixedPoints(id);
  }

  lemma UserIdShapeChars(id: string)
    requires IsUserIdShape(id)
    ensures IsNormalUserId(id)
  {
    var prefix := id[..5];
    forall i | 0 <= i < 5
      ensures IsWordChar(id[i])
    {
      assert id[i] == prefix[i];
    }
    forall i | 5 <= i < |id|
      ensures IsWordChar(id[i])
    {
      assert id[i] == id[5..][i - 5];
      AlphanumericChars(id[i]);
    }
  }

  // ----- buildSessionLink -----

  /** Characters that `URLSearchParams` writes as themselves: `[A-Za-z0-9*-._]`. */
  predicate IsFormSafe(c: char)
  {
    IsAsciiLetterOrDigit(c) || c == '*' || c == '-' || c == '.' || c == '_'
  }

  /** Characters an encoded query value can contain. */
  predicate IsEncodedChar(c: char)
  {
    IsFormSafe(c) || c == '+' || c == '%'
  }

  /** The bytes of the UTF-8 encoding of `c`. */
  function Utf8(c: char): (r: seq<int>)
    ensures 1 <= |r| <= 4
    ensures forall i :: 0 <= i < |r| ==> 0 <= r[i] < 256
  {
    var n := c as int;
    if n < 0x80 then [n]
    else if n < 0x800 then [0xC0 + n / 64, 0x80 + n % 64]
    else if n < 0x10000 then [0xE0 + n / 4096, 0x80 + (n / 64) % 64, 0x80 + n % 64]
    else [0xF0 + n / 262144, 0x80 + (n / 4096) % 64, 0x80 + (n / 64) % 64, 0x80 + n % 64]
  }

  function HexDigit(n: int): (c: char)
    requires 0 <= n < 16
    ensures IsAsciiLetterOrDigit(c)
  {
    if n < 10 then ('0' as int + n) as char else ('A' as int + n - 10) as char
  }

  /** `%XX` for every byte, upper-case hexadecimal. */
  function PercentEncode(bytes: seq<int>): (r: string)
    requires forall i :: 0 <= i < |bytes| ==> 0 <= bytes[i] < 256
    ensures |r| == 3 * |bytes|
    ensures forall i :: 0 <= i < |r| ==> IsEncodedChar(r[i])
  {
    if bytes == [] then []
    else ['%', HexDigit(bytes[0] / 16), HexDigit(bytes[0] % 16)] + PercentEncode(bytes[1..])
  }

  /** The application/x-www-form-urlencoded encoding `URLSearchParams` applies to a name or value:
      safe characters stay, a space becomes `+`, every other character becomes its UTF-8 bytes in
      `%XX` form. */
  function FormEncode(s: string): (r: string)
    ensures forall i :: 0 <= i < |r| ==> IsEncodedChar(r[i])
    ensures (forall i :: 0 <= i < |s| ==> IsFormSafe(s[i])) ==> r == s
  {
    if s == [] then []
    else
      var head := if IsFormSafe(s[0]) then [s[0]] else if s[0] == ' ' then "+" else PercentEncode(Utf8(s[0]));
      head + FormEncode(s[1..])
  }

  /** The query string built by `params.toString()`. */
  function SessionQuery(sessionId: string, socketUrl: string): (r: string)
    ensures |r| >= 8 && r[..8] == "session="
    ensures '&' in r <==> socketUrl != []
  {
    "session=" + FormEncode(sessionId) + (if socketUrl != [] then "&socketUrl=" + FormEncode(socketUrl) else "")
  }

  /** `buildSessionLink(sessionId, origin, socketUrl)`: trailing slashes are stripped from the
      origin and the socket URL; the link is `origin/?query`, or `/?query` without an origin. */
  function BuildSessionLink(sessionId: string, origin: string, socketUrl: string): (r: string)
    ensures var o := StripTrailingSlashes(origin);
            |r| >= |o| + 10 && r[..|o|] == o && r[|o|..|o| + 10] == "/?session="
    ensures '&' in r[|StripTrailingSlashes(origin)|..] <==> StripTrailingSlashes(socketUrl) != []
  {
    var normalizedOrigin := StripTrailingSlashes(origin);
    var normalizedSocketUrl := StripTrailingSlashes(socketUrl);
    var query := SessionQuery(sessionId, normalizedSocketUrl);
    LinkShape(normalizedOrigin, query);
    if normalizedOrigin != [] then normalizedOrigin + "/?" + query else "/?" + query
  }

  lemma LinkShape(o: string, query: string)
    requires |query| >= 8 && query[..8] == "session="
    ensures var link := if o != [] then o + "/?" + query else "/?" + query;
            && |link| >= |o| + 10 && link[..|o|] == o && link[|o|..|o| + 10] == "/?session="
            && ('&' in link[|o|..] <==> '&' in query)
  {
    var tail := "/?" + query;
    assert tail[..10] == "/?" + query[..8];
    assert '&' in tail <==> '&' in query by {
      assert tail == ['/', '?'] + query;
    }
    if o != [] {
      var link := o + "/?" + query;
      assert link == o + tail;
      assert link[|o|..] == tail;
    } else {
      assert [] + tail == tail;
    }
  }

  /** The link is the origin without its trailing slashes (so not ending in `/`), then `/?session=` and the encoded id;
      the socket URL parameter follows exactly when the stripped socket URL is not empty. */
  lemma SessionLinkLayout(sessionId: string, origin: string, socketUrl: string)
    ensures var o := StripTrailingSlashes(origin);
            var u := StripTrailingSlashes(socketUrl);
            BuildSessionLink(sessionId, origin, socketUrl)
            == o + "/?" + "session=" + FormEncode(sessionId) + (if u == [] then "" else "&socketUrl=" + FormEncode(u))
  {
    var o := StripTrailingSlashes(origin);
    var u := StripTrailingSlashes(socketUrl);
    var separator, key := "/?", "session=";
    var e := FormEncode(sessionId);
    var tail := if u == [] then "" else "&socketUrl=" + FormEncode(u);
    LinkIsOriginAndQuery(sessionId, origin, socketUrl);
    QueryLayout(sessionId, u);
    ConcatAssoc(o + separator, key + e, tail);
    ConcatAssoc(o + separator, key, e);
  }

  lemma LinkIsOriginAndQuery(sessionId: string, origin: string, socketUrl: string)
    ensures BuildSessionLink(sessionId, origin, socketUrl)
            == StripTrailingSlashes(origin) + "/?" + SessionQuery(sessionId, StripTrailingSlashes(socketUrl))
  {
    var o := StripTrailingSlashes(origin);
    if o == [] {
      assert o + "/?" == "/?";
    }
  }

  lemma QueryLayout(sessionId: string, u: string)
    ensures SessionQuery(sessionId, u) == "session=" + FormEncode(sessionId) + (if u == [] then "" else "&socketUrl=" + FormEncode(u))
  {
  }

  /** An encoded value never contains `&`, `=`, `#`, `?` or `/`, so the query of a session link
      splits back into exactly the parameters that were set. */
  lemma FormEncodeHasNoSeparators(s: string)
    ensures forall i :: 0 <= i < |FormEncode(s)| ==> FormEncode(s)[i] !in "&=#?/"
  {
    var r := FormEncode(s);
    forall i | 0 <= i < |r|
      ensures r[i] !in "&=#?/"
    {
      assert IsEncodedChar(r[i]);
    }
  }

  /** The link of a generated private room carries its id verbatim. */
  lemma PrivateSessionLink(sessionId: string, origin: string)
    requires IsPrivateSessionIdShape(sessionId)
    ensures BuildSessionLink(sessionId, origin, "") == StripTrailingSlashes(origin) + "/?" + "session=" + sessionId
  {
    var prefix := sessionId[..8];
    forall i | 0 <= i < 8
      ensures IsFormSafe(sessionId[i])
    {
      assert sessionId[i] == prefix[i];
    }
    forall i | 8 <= i < |sessionId|
      ensures IsFormSafe(sessionId[i])
    {
      assert sessionId[i] == sessionId[8..][i - 8];
      AlphanumericChars(sessionId[i]);
    }
    SessionLinkLayout(sessionId, origin, "");
  }
}
