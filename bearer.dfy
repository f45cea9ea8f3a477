/** How the JWT strategy finds the token of a request: `ExtractJwt.fromAuthHeaderAsBearerToken()`
    of passport-jwt, which splits the Authorization header on whitespace and accepts the
    scheme `bearer` in any letter case. */
module BearerToken {
  import opened Wrappers

  /** The characters of JavaScript's `\s` class. */
  predicate IsSpace(c: char) {
    || c == ' ' || c == '\t' || c == '\n' || c == '\r' || c == '\U{000B}' || c == '\U{000C}'
    || c == '\U{00A0}' || c == '\U{1680}' || ('\U{2000}' <= c <= '\U{200A}')
    || c == '\U{2028}' || c == '\U{2029}' || c == '\U{202F}' || c == '\U{205F}'
    || c == '\U{3000}' || c == '\U{FEFF}'
  }

  predicate NoSpace(s: string) {
    forall i :: 0 <= i < |s| ==> !IsSpace(s[i])
  }

  predicate AllSpace(s: string) {
    forall i :: 0 <= i < |s| ==> IsSpace(s[i])
  }

  /** `header` is the whitespace `lead`, the word `w1`, the non-empty whitespace `gap`, the word
      `w2`, then a `rest` that is empty or starts with whitespace: `w1` and `w2` are its first
      two words. */
  ghost predicate SplitsInto(header: string, lead: string, w1: string, gap: string, w2: string, rest: string) {
    && header == lead + w1 + gap + w2 + rest
    && AllSpace(lead) && AllSpace(gap) && gap != []
    && w1 != [] && NoSpace(w1) && w2 != [] && NoSpace(w2)
    && (rest == [] || IsSpace(rest[0]))
  }

  /** `s` without its leading whitespace. */
  function TrimStart(s: string): (r: string)
    ensures |r| <= |s| && r == s[|s| - |r|..]
    ensures forall i :: 0 <= i < |s| - |r| ==> IsSpace(s[i])
    ensures r == [] || !IsSpace(r[0])
  {
    if s != [] && IsSpace(s[0]) then TrimStart(s[1..]) else s
  }

  /** The longest prefix of `s` without whitespace. */
  function Word(s: string): (w: string)
    ensures |w| <= |s| && w == s[..|w|] && NoSpace(w)
    ensures |w| == |s| || IsSpace(s[|w|])
  {
    if s != [] && !IsSpace(s[0]) then [s[0]] + Word(s[1..]) else []
  }

  datatype AuthParams = AuthParams(scheme: string, value: string)

  /** The leftmost match of `/(\S+)\s+(\S+)/` on the header: its first two words, when it has two. */
  function ParseAuthHeader(header: string): (r: Option<AuthParams>)
    ensures r.Some? ==> exists lead, gap, rest :: SplitsInto(header, lead, r.value.scheme, gap, r.value.value, rest)
  {
    var s1 := TrimStart(header);
    var scheme := Word(s1);
    var value := Word(TrimStart(s1[|scheme|..]));
    if scheme == [] || value == [] then None
    else
      ParseSplits(header, s1, scheme, s1[|scheme|..], TrimStart(s1[|scheme|..]), value);
      Some(AuthParams(scheme, value))
  }

  /** `s` is its leading whitespace followed by `TrimStart(s)`. */
  lemma TrimSplit(s: string)
    ensures var r := TrimStart(s); s == s[..|s| - |r|] + r && AllSpace(s[..|s| - |r|])
  {
    var r := TrimStart(s);
    assert s == s[..|s| - |r|] + s[|s| - |r|..];
  }

  /** `s` is `Word(s)` followed by a remainder that is empty or starts with whitespace. */
  lemma WordSplit(s: string)
    ensures var w := Word(s); s == w + s[|w|..] && (s[|w|..] == [] || IsSpace(s[|w|..][0]))
  {
    var w := Word(s);
    assert s == s[..|w|] + s[|w|..];
  }

  lemma Regroup(h: string, a: string, s1: string, b: string, r1: string, c: string, s2: string, d: string, e: string)
    requires h == a + s1 && s1 == b + r1 && r1 == c + s2 && s2 == d + e
    ensures h == a + b + c + d + e
  {
  }

  /** The words `ParseAuthHeader` picks out, with the text around them. */
  lemma ParseSplits(header: string, s1: string, scheme: string, rest1: string, s2: string, value: string)
    requires s1 == TrimStart(header) && scheme == Word(s1) && scheme != []
    requires rest1 == s1[|scheme|..] && s2 == TrimStart(rest1) && value == Word(s2) && value != []
    ensures exists lead, gap, rest :: SplitsInto(header, lead, scheme, gap, value, rest)
  {
    TrimSplit(header);
    WordSplit(s1);
    TrimSplit(rest1);
    WordSplit(s2);
    var lead, gap, rest := header[..|header| - |s1|], rest1[..|rest1| - |s2|], s2[|value|..];
    SplitsFrom(header, lead, s1, scheme, rest1, gap, s2, value, rest);
  }

  lemma SplitsFrom(h: string, lead: string, s1: string, w1: string, r1: string, gap: string, s2: string, w2: string, rest: string)
    requires h == lead + s1 && AllSpace(lead)
    requires s1 == w1 + r1 && w1 != [] && NoSpace(w1) && (r1 == [] || IsSpace(r1[0]))
    requires r1 == gap + s2 && AllSpace(gap) && (s2 == [] || !IsSpace(s2[0]))
    requires s2 == w2 + rest && w2 != [] && NoSpace(w2) && (rest == [] || IsSpace(rest[0]))
    ensures exists l, g, r :: SplitsInto(h, l, w1, g, w2, r)
  {
    assert gap != [];
    Regroup(h, lead, s1, w1, r1, gap, s2, w2, rest);
    assert SplitsInto(h, lead, w1, gap, w2, rest);
  }

  lemma {:induction false} TrimAllSpace(g: string, t: string)
    requires AllSpace(g) && (t == [] || !IsSpace(t[0]))
    ensures TrimStart(g + t) == t
  {
    if g == [] {
      assert g + t == t;
    } else {
      assert (g + t)[1..] == g[1..] + t;
      TrimAllSpace(g[1..], t);
    }
  }

  /** A header made of at least two words is parsed into exactly its first two words. */
  lemma ParseFirstTwoWords(header: string, lead: string, w1: string, gap: string, w2: string, rest: string)
    requires SplitsInto(header, lead, w1, gap, w2, rest)
    ensures ParseAuthHeader(header) == Some(AuthParams(w1, w2))
  {
    var tail := w2 + rest;
    var s1 := w1 + (gap + tail);
    assert header == lead + s1;
    TrimAllSpace(lead, s1);
    WordOf(w1, gap + tail);
    assert s1[|w1|..] == gap + tail;
    TrimAllSpace(gap, tail);
    WordOf(w2, rest);
    ParseOf(header, s1, w1, tail, w2);
  }

  lemma ParseOf(header: string, s1: string, scheme: string, s2: string, value: string)
    requires TrimStart(header) == s1 && Word(s1) == scheme && scheme != []
    requires TrimStart(s1[|scheme|..]) == s2 && Word(s2) == value && value != []
    ensures ParseAuthHeader(header) == Some(AuthParams(scheme, value))
  {
  }

  /** A header that `ParseAuthHeader` rejects has fewer than two words. */
  lemma ParseAuthHeaderNone(header: string)
    requires ParseAuthHeader(header).None?
    ensures forall lead, w1, gap, w2, rest :: !SplitsInto(header, lead, w1, gap, w2, rest)
  {
    forall lead, w1, gap, w2, rest | SplitsInto(header, lead, w1, gap, w2, rest)
      ensures false
    {
      ParseFirstTwoWords(header, lead, w1, gap, w2, rest);
    }
  }

  function LowerChar(c: char): char {
    if 'A' <= c <= 'Z' then (c as int + 32) as char else c
  }

  /** `toLowerCase()` as far as it matters here: no character outside A-Z lower-cases to a
      letter of "bearer". */
  function ToLower(s: string): (r: string)
    ensures |r| == |s|
  {
    seq(|s|, i requires 0 <= i < |s| => LowerChar(s[i]))
  }

  const BearerScheme := "bearer"

  /** `ExtractJwt.fromAuthHeaderAsBearerToken()` applied to the request's Authorization header. */
  function FromAuthHeaderAsBearerToken(authorization: Option<string>): (r: Option<string>)
    ensures r.Some? ==> authorization.Some? && r.value != [] && NoSpace(r.value)
    ensures r.Some? ==>
      && ParseAuthHeader(authorization.value).Some?
      && ToLower(ParseAuthHeader(authorization.value).value.scheme) == BearerScheme
      && r.value == ParseAuthHeader(authorization.value).value.value
  {
    match authorization
    case None => None
    case Some(h) =>
      match ParseAuthHeader(h)
      case None => None
      case Some(p) => if ToLower(p.scheme) == BearerScheme then Some(p.value) else None
  }

  /** A header of at least two words yields its second word exactly when its first word is
      `bearer` in some letter case, and nothing otherwise. */
  lemma BearerTokenOfHeader(header: string, lead: string, w1: string, gap: string, w2: string, rest: string)
    requires SplitsInto(header, lead, w1, gap, w2, rest)
    ensures FromAuthHeaderAsBearerToken(Some(header)) == if ToLower(w1) == BearerScheme then Some(w2) else None
  {
    ParseFirstTwoWords(header, lead, w1, gap, w2, rest);
  }

  /** The header of section 2.1 of RFC 6750: "Bearer", one or more spaces, the token. */
  function Credentials(spaces: nat, token: string): string {
    "Bearer" + seq(spaces, _ => ' ') + token
  }

  /** The characters a `b64token` of section 2.1 of RFC 6750 is made of. */
  predicate IsB64TokenChar(c: char) {
    ('A' <= c <= 'Z') || ('a' <= c <= 'z') || ('0' <= c <= '9')
    || c == '-' || c == '.' || c == '_' || c == '~' || c == '+' || c == '/' || c == '='
  }

  predicate IsB64Token(t: string) {
    t != [] && forall i :: 0 <= i < |t| ==> IsB64TokenChar(t[i])
  }

  lemma {:induction false} WordOf(w: string, s: string)
    requires NoSpace(w) && (s == [] || IsSpace(s[0]))
    ensures Word(w + s) == w
  {
    if w == [] {
      assert w + s == s;
    } else {
      assert (w + s)[1..] == w[1..] + s;
      WordOf(w[1..], s);
    }
  }

  lemma {:induction false} TrimSpaces(n: nat, t: string)
    requires t == [] || !IsSpace(t[0])
    ensures TrimStart(seq(n, _ => ' ') + t) == t
  {
    if n == 0 {
      assert seq(n, _ => ' ') + t == t;
    } else {
      assert (seq(n, _ => ' ') + t)[1..] == seq(n - 1, _ => ' ') + t;
      TrimSpaces(n - 1, t);
    }
  }

  lemma B64TokenHasNoSpace(t: string)
    requires IsB64Token(t)
    ensures NoSpace(t) && !IsSpace(t[0])
  {
    forall i | 0 <= i < |t| ensures !IsSpace(t[i]) {
      assert IsB64TokenChar(t[i]);
    }
  }

  lemma ParseCredentials(spaces: nat, token: string)
    requires spaces >= 1 && NoSpace(token) && token != []
    ensures ParseAuthHeader(Credentials(spaces, token)) == Some(AuthParams("Bearer", token))
  {
    var h := Credentials(spaces, token);
    var gap := seq(spaces, _ => ' ');
    assert h == "Bearer" + (gap + token);
    assert TrimStart(h) == h by { assert h[0] == 'B'; }
    assert (gap + token)[0] == ' ';
    WordOf("Bearer", gap + token);
    assert h[|"Bearer"|..] == gap + token;
    TrimSpaces(spaces, token);
    assert token + [] == token;
    WordOf(token, []);
  }

  /** Every header written as section 2.1 of RFC 6750 writes it yields its token. */
  lemma BearerCredentialsAccepted(spaces: nat, token: string)
    requires spaces >= 1 && IsB64Token(token)
    ensures FromAuthHeaderAsBearerToken(Some(Credentials(spaces, token))) == Some(token)
  {
    B64TokenHasNoSpace(token);
    ParseCredentials(spaces, token);
    BearerSchemeMatches();
  }

  lemma BearerSchemeMatches()
    ensures ToLower("Bearer") == BearerScheme
  {
    var l := ToLower("Bearer");
    assert LowerChar('B') == 'b';
    assert l[0] == 'b' && l[1] == 'e' && l[2] == 'a' && l[3] == 'r' && l[4] == 'e' && l[5] == 'r';
  }
}
