/**
 * The connection string built in the `DatabaseService` constructor and the
 * redacted form of it that is logged.
 *
 * `EncodeURIComponent` follows section 15.1.3.4 of ECMA-262 5.1: characters
 * outside the unreserved set are written as the `%XY` escapes of their UTF-8
 * bytes.  `DecodeURIComponent` (section 15.1.3.2) is its inverse.  `Redact`
 * is `s.replace(/:([^:@]+)@/, ':***@')`: the leftmost match only.
 */
module ConnectionUrl {
  import opened Wrappers

  // ---------------------------------------------------------------------------
  // encodeURIComponent / decodeURIComponent

  /** uriAlpha, DecimalDigit and uriMark: the characters left as they are. */
  predicate IsUnreserved(c: char) {
    ('A' <= c <= 'Z') || ('a' <= c <= 'z') || ('0' <= c <= '9') ||
    c == '-' || c == '_' || c == '.' || c == '!' || c == '~' ||
    c == '*' || c == '\'' || c == '(' || c == ')'
  }

  predicate IsHexDigit(c: char) {
    ('0' <= c <= '9') || ('A' <= c <= 'F') || ('a' <= c <= 'f')
  }

  /** The upper-case hexadecimal digit for d. */
  function HexDigit(d: nat): (c: char)
    requires d < 16
    ensures IsHexDigit(c) && 'a' > c
  {
    if d < 10 then ('0' as int + d) as char else ('A' as int + d - 10) as char
  }

  function HexValue(c: char): (d: nat)
    requires IsHexDigit(c)
    ensures d < 16
  {
    if c <= '9' then c as int - '0' as int
    else if c <= 'F' then c as int - 'A' as int + 10
    else c as int - 'a' as int + 10
  }

  lemma HexValueOfDigit(d: nat)
    requires d < 16
    ensures HexValue(HexDigit(d)) == d
  {
  }

  /** The UTF-8 bytes of a Unicode scalar value. */
  function Utf8(c: char): (bytes: seq<nat>)
    ensures 1 <= |bytes| <= 4
    ensures forall i | 0 <= i < |bytes| :: bytes[i] < 256
  {
    // the code point is cut into 6-bit groups, most significant first
    var cp := c as int;
    if cp < 0x80 then [cp]
    else if cp < 0x800 then [0xC0 + cp / 64, 0x80 + cp % 64]
    else if cp < 0x10000 then [0xE0 + cp / 64 / 64, 0x80 + cp / 64 % 64, 0x80 + cp % 64]
    else [0xF0 + cp / 64 / 64 / 64, 0x80 + cp / 64 / 64 % 64, 0x80 + cp / 64 % 64, 0x80 + cp % 64]
  }

  /** `%XY` for each byte. */
  function PercentEncode(bytes: seq<nat>): (r: string)
    requires forall i | 0 <= i < |bytes| :: bytes[i] < 256
    ensures |r| == 3 * |bytes|
    ensures forall i | 0 <= i < |r| :: r[i] == '%' || (IsHexDigit(r[i]) && 'a' > r[i])
  {
    if bytes == [] then []
    else ['%', HexDigit(bytes[0] / 16), HexDigit(bytes[0] % 16)] + PercentEncode(bytes[1..])
  }

  function EncodeChar(c: char): (r: string)
    ensures |r| >= 1
  {
    if IsUnreserved(c) then [c] else PercentEncode(Utf8(c))
  }

  /**
   * `encodeURIComponent(s)`.  The result holds only unreserved characters,
   * `%` and hexadecimal digits, so never a `:` or an `@`.
   */
  function EncodeURIComponent(s: string): (r: string)
    ensures |r| >= |s|
    ensures forall i | 0 <= i < |r| :: IsUnreserved(r[i]) || r[i] == '%' || IsHexDigit(r[i])
    ensures forall i | 0 <= i < |r| :: r[i] != ':' && r[i] != '@'
  {
    if s == [] then [] else EncodeChar(s[0]) + EncodeURIComponent(s[1..])
  }

  /** The byte escaped as `%XY` at t[i..i + 3], if there is one. */
  function EscapedByte(t: string, i: nat): Option<nat> {
    if i + 3 <= |t| && t[i] == '%' && IsHexDigit(t[i + 1]) && IsHexDigit(t[i + 2])
    then Some(16 * HexValue(t[i + 1]) + HexValue(t[i + 2]))
    else None
  }

  /** n consecutive escaped bytes from t[i]. */
  function EscapedBytes(t: string, i: nat, n: nat): Option<seq<nat>>
    decreases n
  {
    if n == 0 then Some([])
    else match EscapedByte(t, i)
      case None => None
      case Some(b) =>
        match EscapedBytes(t, i + 3, n - 1)
        case None => None
        case Some(rest) => Some([b] + rest)
  }

  /** The length of the UTF-8 sequence a leading byte announces; 0 if it is not a leading byte. */
  function Utf8Length(b: nat): nat {
    if b < 0x80 then 1
    else if 0xC0 <= b < 0xE0 then 2
    else if 0xE0 <= b < 0xF0 then 3
    else if 0xF0 <= b < 0xF8 then 4
    else 0
  }

  predicate IsContinuation(b: nat) {
    0x80 <= b < 0xC0
  }

  /**
   * The scalar value a UTF-8 sequence encodes; None for a malformed,
   * over-long or surrogate sequence (the URIError cases).
   */
  function Utf8Decode(bytes: seq<nat>): Option<char> {
    if |bytes| == 0 || Utf8Length(bytes[0]) != |bytes| then None
    else if exists i | 1 <= i < |bytes| :: !IsContinuation(bytes[i]) then None
    else
      var cp :=
        if |bytes| == 1 then bytes[0]
        else if |bytes| == 2 then (bytes[0] - 0xC0) * 0x40 + (bytes[1] - 0x80)
        else if |bytes| == 3 then (bytes[0] - 0xE0) * 0x1000 + (bytes[1] - 0x80) * 0x40 + (bytes[2] - 0x80)
        else (bytes[0] - 0xF0) * 0x40000 + (bytes[1] - 0x80) * 0x1000 + (bytes[2] - 0x80) * 0x40 + (bytes[3] - 0x80);
      var least := if |bytes| == 1 then 0 else if |bytes| == 2 then 0x80 else if |bytes| == 3 then 0x800 else 0x10000;
      if cp < least || 0x10FFFF < cp || (0xD800 <= cp < 0xE000) then None
      else Some(cp as char)
  }

  /** `decodeURIComponent(t)`, None where it throws a URIError. */
  function DecodeURIComponent(t: string): Option<string>
    decreases |t|
  {
    if t == [] then Some([])
    else if t[0] != '%' then
      match DecodeURIComponent(t[1..])
      case None => None
      case Some(rest) => Some([t[0]] + rest)
    else
      match EscapedByte(t, 0)
      case None => None
      case Some(lead) =>
        var n := Utf8Length(lead);
        if n == 0 || |t| < 3 * n then None
        else match EscapedBytes(t, 0, n)
          case None => None
          case Some(bytes) =>
            match Utf8Decode(bytes)
            case None => None
            case Some(c) =>
              match DecodeURIComponent(t[3 * n..])
              case None => None
              case Some(rest) => Some([c] + rest)
  }

  /** The escapes of a byte sequence read back as that sequence. */
  lemma {:induction false} EscapedBytesOfEncoding(bytes: seq<nat>, rest: string)
    requires forall i | 0 <= i < |bytes| :: bytes[i] < 256
    ensures EscapedBytes(PercentEncode(bytes) + rest, 0, |bytes|) == Some(bytes)
  {
    if bytes != [] {
      var b := bytes[0];
      var t := PercentEncode(bytes) + rest;
      assert t == ['%', HexDigit(b / 16), HexDigit(b % 16)] + (PercentEncode(bytes[1..]) + rest);
      HexValueOfDigit(b / 16);
      HexValueOfDigit(b % 16);
      assert EscapedByte(t, 0) == Some(b);
      EscapedBytesOfEncoding(bytes[1..], rest);
      EscapedBytesShift(t, 3, PercentEncode(bytes[1..]) + rest, |bytes| - 1);
      assert [b] + bytes[1..] == bytes;
    }
  }

  /** Reading escapes further into a string is reading them from its suffix. */
  lemma {:induction false} EscapedBytesShift(t: string, k: nat, u: string, n: nat)
    requires k <= |t| && t[k..] == u
    ensures EscapedBytes(t, k, n) == EscapedBytes(u, 0, n)
    decreases n
  {
    if n > 0 {
      assert EscapedByte(t, k) == EscapedByte(u, 0) by {
        if k + 3 <= |t| {
          assert t[k] == u[0] && t[k + 1] == u[1] && t[k + 2] == u[2];
        }
      }
      if k + 3 <= |t| {
        assert t[k + 3..] == u[3..];
        EscapedBytesShift(t, k + 3, u[3..], n - 1);
        EscapedBytesShift(u, 3, u[3..], n - 1);
      }
    }
  }

  lemma Utf8RoundTrip2(c: char)
    requires 0x80 <= c as int < 0x800
    ensures Utf8Length(Utf8(c)[0]) == 2 && Utf8Decode(Utf8(c)) == Some(c)
  {
    var cp := c as int;
    assert cp == cp / 64 * 64 + cp % 64;
  }

  lemma Utf8RoundTrip3(c: char)
    requires 0x800 <= c as int < 0x10000
    ensures Utf8Length(Utf8(c)[0]) == 3 && Utf8Decode(Utf8(c)) == Some(c)
  {
    var cp := c as int;
    var q1 := cp / 64;
    assert cp == q1 * 64 + cp % 64;
    assert q1 == q1 / 64 * 64 + q1 % 64;
  }

  lemma Utf8RoundTrip4(c: char)
    requires 0x10000 <= c as int
    ensures Utf8Length(Utf8(c)[0]) == 4 && Utf8Decode(Utf8(c)) == Some(c)
  {
    var cp := c as int;
    var q1 := cp / 64;
    var q2 := q1 / 64;
    assert cp == q1 * 64 + cp % 64;
    assert q1 == q2 * 64 + q1 % 64;
    assert q2 == q2 / 64 * 64 + q2 % 64;
  }

  /** UTF-8 decoding inverts UTF-8 encoding. */
  lemma Utf8RoundTrip(c: char)
    ensures Utf8Length(Utf8(c)[0]) == |Utf8(c)|
    ensures Utf8Decode(Utf8(c)) == Some(c)
  {
    var cp := c as int;
    if cp < 0x80 {
    } else if cp < 0x800 {
      Utf8RoundTrip2(c);
    } else if cp < 0x10000 {
      Utf8RoundTrip3(c);
    } else {
      Utf8RoundTrip4(c);
    }
  }

  /** Decoding reads a percent-encoded character off the front. */
  lemma DecodeEscapedChar(c: char, rest: string)
    requires !IsUnreserved(c)
    ensures DecodeURIComponent(PercentEncode(Utf8(c)) + rest)
            == match DecodeURIComponent(rest) case None => None case Some(r) => Some([c] + r)
  {
    var bytes := Utf8(c);
    var t := PercentEncode(bytes) + rest;
    Utf8RoundTrip(c);
    EscapedBytesOfEncoding(bytes, rest);
    EscapedBytesOfEncoding(bytes[..1], PercentEncode(bytes[1..]) + rest);
    assert PercentEncode(bytes) == PercentEncode(bytes[..1]) + PercentEncode(bytes[1..]);
    assert EscapedByte(t, 0) == Some(bytes[0]);
    assert t[3 * |bytes|..] == rest;
  }

  /** Decoding reads one encoded character off the front. */
  lemma DecodeEncodedChar(c: char, rest: string)
    ensures DecodeURIComponent(EncodeChar(c) + rest)
            == match DecodeURIComponent(rest) case None => None case Some(r) => Some([c] + r)
  {
    if IsUnreserved(c) {
      assert (EncodeChar(c) + rest)[1..] == rest;
    } else {
      DecodeEscapedChar(c, rest);
    }
  }

  /** Encoding loses nothing: decoding gives the original back. */
  lemma {:induction false} EncodeRoundTrip(s: string)
    ensures DecodeURIComponent(EncodeURIComponent(s)) == Some(s)
  {
    if s != [] {
      EncodeRoundTrip(s[1..]);
      DecodeEncodedChar(s[0], EncodeURIComponent(s[1..]));
      assert [s[0]] + s[1..] == s;
    }
  }

  // ---------------------------------------------------------------------------
  // The connection string and its logged form

  /**
   * s is `mysql://u:p@url` in a form that splits back: no `:` in u, so the
   * first `:` after the scheme ends the user name, and no `@` before the one
   * that ends the password.
   */
  predicate ReadsBackAs(s: string, u: string, p: string, url: string) {
    var sep, at := 8 + |u|, 9 + |u| + |p|;
    |s| == at + 1 + |url|
    && s[..sep] == "mysql://" + u && s[sep] == ':' && s[sep + 1..at] == p && s[at] == '@'
    && s[at + 1..] == url
    && (forall t | 8 <= t < sep :: !IsSeparator(s[t]))
    && (forall t | 0 <= t < at :: s[t] != '@')
  }

  /**
   * `mysql://${enc(username)}:${enc(password)}@${url}`. The encoded credentials
   * hold no `:` or `@`, so the first `:` after the scheme ends the user name,
   * the first `@` ends the password, and the host follows it unchanged.
   */
  function DatabaseUrl(username: string, password: string, url: string): (r: string)
    ensures ReadsBackAs(r, EncodeURIComponent(username), EncodeURIComponent(password), url)
  {
    var u, p := EncodeURIComponent(username), EncodeURIComponent(password);
    CredentialsLayout(u, p, url);
    "mysql://" + u + ":" + p + "@" + url
  }

  /** The characters `[^:@]` excludes. */
  predicate IsSeparator(c: char) {
    c == ':' || c == '@'
  }

  /** `/:([^:@]+)@/` matches s[i..j + 1]. */
  ghost predicate IsMatch(s: string, i: int, j: int) {
    0 <= i && i + 1 < j < |s| && s[i] == ':' && s[j] == '@' &&
    forall t | i < t < j :: !IsSeparator(s[t])
  }

  /** The end of the longest run of `[^:@]` from s[i]. */
  function RunEnd(s: string, i: nat): (j: nat)
    requires i <= |s|
    ensures i <= j <= |s|
    ensures forall t | i <= t < j :: !IsSeparator(s[t])
    ensures j < |s| ==> IsSeparator(s[j])
    decreases |s| - i
  {
    if i == |s| || IsSeparator(s[i]) then i else RunEnd(s, i + 1)
  }

  /** The position of the `@` that ends a match starting at s[i], if one does. */
  function MatchAt(s: string, i: nat): (r: Option<nat>)
    requires i < |s|
    ensures r.Some? ==> IsMatch(s, i, r.value)
  {
    if s[i] != ':' then None
    else
      var j := RunEnd(s, i + 1);
      if i + 1 < j < |s| && s[j] == '@' then Some(j) else None
  }

  /** The leftmost match starting at or after s[k]. */
  function FirstMatch(s: string, k: nat): (r: Option<(nat, nat)>)
    ensures r.Some? ==> k <= r.value.0 && IsMatch(s, r.value.0, r.value.1)
    decreases |s| - k
  {
    if k >= |s| then None
    else match MatchAt(s, k)
      case Some(j) => Some((k, j))
      case None => FirstMatch(s, k + 1)
  }

  /** `s.replace(/:([^:@]+)@/, ':***@')`: at most one match is rewritten. */
  function Redact(s: string): (r: string)
    ensures r == s || exists i, j :: IsMatch(s, i, j) && r == s[..i] + ":***@" + s[j + 1..]
  {
    match FirstMatch(s, 0)
    case None => s
    case Some((i, j)) => s[..i] + ":***@" + s[j + 1..]
  }

  /** `MatchAt` finds exactly the matches that start at s[i]. */
  lemma MatchAtSpec(s: string, i: nat)
    requires i < |s|
    ensures forall j :: IsMatch(s, i, j) <==> MatchAt(s, i) == Some(j)
  {
    if s[i] == ':' {
      var e := RunEnd(s, i + 1);
      forall j | IsMatch(s, i, j) ensures j == e {
        RunEndAt(s, i + 1, j);
      }
    }
  }

  /** `FirstMatch` finds the leftmost match, and finds one whenever there is one. */
  lemma {:induction false} FirstMatchSpec(s: string, k: nat)
    ensures FirstMatch(s, k).Some? ==>
              var (i, j) := FirstMatch(s, k).value;
              k <= i && IsMatch(s, i, j) && forall i', j' | k <= i' < i :: !IsMatch(s, i', j')
    ensures FirstMatch(s, k).None? ==> forall i', j' | k <= i' :: !IsMatch(s, i', j')
    decreases |s| - k
  {
    if k < |s| {
      MatchAtSpec(s, k);
      if MatchAt(s, k).None? {
        FirstMatchSpec(s, k + 1);
      }
    }
  }

  /** `Redact` replaces the leftmost match of the pattern and nothing else. */
  lemma RedactLeftmost(s: string, i: nat, j: nat)
    requires IsMatch(s, i, j)
    requires forall i', j' | 0 <= i' < i :: !IsMatch(s, i', j')
    ensures Redact(s) == s[..i] + ":***@" + s[j + 1..]
  {
    FirstMatchSpec(s, 0);
    var (i1, j1) := FirstMatch(s, 0).value;
    assert i1 == i;
    MatchAtSpec(s, i);
    assert j1 == j;
  }

  /** Without a match `Redact` returns its argument. */
  lemma RedactNoMatch(s: string)
    requires forall i, j :: !IsMatch(s, i, j)
    ensures Redact(s) == s
  {
    FirstMatchSpec(s, 0);
  }

  /** The run from s[i] ends at j. */
  lemma {:induction false} RunEndAt(s: string, i: nat, j: nat)
    requires i <= j <= |s|
    requires forall t | i <= t < j :: !IsSeparator(s[t])
    requires j < |s| ==> IsSeparator(s[j])
    ensures RunEnd(s, i) == j
    decreases j - i
  {
    if i < j {
      RunEndAt(s, i + 1, j);
    }
  }

  /** Positions without a match are skipped over. */
  lemma {:induction false} FirstMatchSkip(s: string, k: nat, i: nat)
    requires k <= i <= |s|
    requires forall t | k <= t < i :: MatchAt(s, t).None?
    ensures FirstMatch(s, k) == FirstMatch(s, i)
    decreases i - k
  {
    if k < i {
      FirstMatchSkip(s, k + 1, i);
    }
  }

  /** Where each part of `mysql://u:p@url` sits. */
  lemma UrlLayout(u: string, p: string, url: string)
    ensures var s := "mysql://" + u + ":" + p + "@" + url;
            var sep, at := 8 + |u|, 9 + |u| + |p|;
            && |s| == at + 1 + |url|
            && s[5] == ':'
            && (forall t | 0 <= t < 8 && t != 5 :: !IsSeparator(s[t]))
            && (forall t | 8 <= t < sep :: s[t] == u[t - 8])
            && s[sep] == ':'
            && (forall t | sep < t < at :: s[t] == p[t - sep - 1])
            && s[at] == '@'
            && (forall t | at < t < |s| :: s[t] == url[t - at - 1])
            && s[..sep] == "mysql://" + u
            && s[at + 1..] == url
  {
    var s0 := "mysql://" + u;
    var s1 := s0 + ":";
    var s2 := s1 + p;
    var s3 := s2 + "@";
    var s := s3 + url;
    assert s[..|s0|] == s0;
    assert s[|s3|..] == url;
  }

  /** Credentials without `:` or `@` can be read back off `mysql://u:p@url`. */
  lemma CredentialsLayout(u: string, p: string, url: string)
    requires forall t | 0 <= t < |u| :: !IsSeparator(u[t])
    requires forall t | 0 <= t < |p| :: !IsSeparator(p[t])
    ensures ReadsBackAs("mysql://" + u + ":" + p + "@" + url, u, p, url)
  {
    var s := "mysql://" + u + ":" + p + "@" + url;
    var sep, at := 8 + |u|, 9 + |u| + |p|;
    UrlLayout(u, p, url);
    assert s[sep + 1..at] == p;
    forall t | 0 <= t < at ensures s[t] != '@' {
      if 8 <= t < sep {
        assert s[t] == u[t - 8];
      } else if sep < t {
        assert s[t] == p[t - sep - 1];
      }
    }
  }

  /**
   * With a non-empty password the logged string is the connection string with
   * the password replaced by `***`, whatever the user name and host.
   */
  lemma RedactHidesPassword(username: string, password: string, url: string)
    requires password != ""
    ensures Redact(DatabaseUrl(username, password, url))
            == "mysql://" + EncodeURIComponent(username) + ":***@" + url
  {
    var u, p := EncodeURIComponent(username), EncodeURIComponent(password);
    var s := DatabaseUrl(username, password, url);
    var sep, at := 8 + |u|, 9 + |u| + |p|;
    UrlLayout(u, p, url);
    // the scheme's `:` starts a run that ends at the separator `:`, not at an `@`
    RunEndAt(s, 6, sep);
    forall t | 0 <= t < sep ensures MatchAt(s, t).None? {
      if t != 5 {
        assert !IsSeparator(s[t]);
      }
    }
    FirstMatchSkip(s, 0, sep);
    RunEndAt(s, sep + 1, at);
    assert MatchAt(s, sep) == Some(at);
  }

  /**
   * With an empty password, and a host without `@`, nothing matches and the
   * connection string is logged as it is.
   */
  lemma EmptyPasswordLoggedAsIs(username: string, url: string)
    requires forall t | 0 <= t < |url| :: url[t] != '@'
    ensures Redact(DatabaseUrl(username, "", url)) == DatabaseUrl(username, "", url)
  {
    var u := EncodeURIComponent(username);
    var s := DatabaseUrl(username, "", url);
    var sep := 8 + |u|;
    UrlLayout(u, "", url);
    assert forall t | 0 <= t < |s| && s[t] == '@' :: t == sep + 1;
    RunEndAt(s, 6, sep);
    RunEndAt(s, sep + 1, sep + 1);
    forall t | 0 <= t < |s| ensures MatchAt(s, t).None? {
      if t == 5 || t == sep {
      } else if t < sep {
        if t >= 8 {
          assert s[t] == u[t - 8];
        }
      } else {
        // a run from inside the host ends at the end or at a `:`
        var e := RunEnd(s, t + 1);
        assert e < |s| ==> s[e] != '@';
      }
    }
    FirstMatchSkip(s, 0, |s|);
  }
}
