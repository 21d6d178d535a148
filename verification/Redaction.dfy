/** URL redaction of error text: every URL is replaced by its host. */
module Redaction {
  import opened Words
  import opened Text

  const SCHEMES: seq<string> := ["http://", "https://", "ws://", "wss://"]

  function Earlier(a: Option<nat>, b: Option<nat>): Option<nat> {
    if a.None? then b else if b.None? then a else Some(Min(a.value, b.value))
  }

  /** Index of the earliest occurrence of any scheme. */
  function FirstScheme(lower: string): Option<nat> {
    Earlier(Earlier(Find(lower, SCHEMES[0]), Find(lower, SCHEMES[1])),
            Earlier(Find(lower, SCHEMES[2]), Find(lower, SCHEMES[3])))
  }

  lemma FirstSchemeIsFirst(lower: string, p: string, i: nat)
    requires p in SCHEMES && OccursAt(lower, p, i)
    ensures FirstScheme(lower).Some? && FirstScheme(lower).value <= i
  {
    var k :| 0 <= k < |SCHEMES| && SCHEMES[k] == p;
    FindsNoLater(lower, p, i);
    EarliestIsNoLater(Find(lower, SCHEMES[0]), Find(lower, SCHEMES[1]),
                      Find(lower, SCHEMES[2]), Find(lower, SCHEMES[3]), k, i);
  }

  lemma EarliestIsNoLater(a: Option<nat>, b: Option<nat>, c: Option<nat>, d: Option<nat>, k: nat, i: nat)
    requires k < 4 && var r := if k == 0 then a else if k == 1 then b else if k == 2 then c else d; r.Some? && r.value <= i
    ensures var r := Earlier(Earlier(a, b), Earlier(c, d)); r.Some? && r.value <= i
  {
  }

  lemma FindsNoLater(s: string, p: string, i: nat)
    requires OccursAt(s, p, i)
    ensures Find(s, p).Some? && Find(s, p).value <= i
  {
    ContainsAt(s, p, i);
    FindIsFirst(s, p);
  }

  lemma FirstSchemeIsThere(lower: string) returns (p: string)
    requires FirstScheme(lower).Some?
    ensures p in SCHEMES && OccursAt(lower, p, FirstScheme(lower).value)
  {
    var r := FirstScheme(lower);
    FindIsFirst(lower, SCHEMES[0]);
    FindIsFirst(lower, SCHEMES[1]);
    FindIsFirst(lower, SCHEMES[2]);
    FindIsFirst(lower, SCHEMES[3]);
    p := if Find(lower, SCHEMES[0]) == r then SCHEMES[0]
         else if Find(lower, SCHEMES[1]) == r then SCHEMES[1]
         else if Find(lower, SCHEMES[2]) == r then SCHEMES[2]
         else SCHEMES[3];
  }

  /** Length of the text up to its first whitespace character. */
  function TokenLength(s: string): (n: nat)
    ensures n <= |s| && (n < |s| ==> IsWhitespace(s[n]))
    ensures forall i | 0 <= i < n :: !IsWhitespace(s[i])
  {
    if s == [] || IsWhitespace(s[0]) then 0 else 1 + TokenLength(s[1..])
  }

  predicate EndsAuthority(c: char) {
    c == '/' || c == '?' || c == '#'
  }

  /** Length of the text up to its first path, query or fragment delimiter. */
  function AuthorityLength(s: string): (n: nat)
    ensures n <= |s| && (n < |s| ==> EndsAuthority(s[n]))
    ensures forall i | 0 <= i < n :: !EndsAuthority(s[i])
  {
    if s == [] || EndsAuthority(s[0]) then 0 else 1 + AuthorityLength(s[1..])
  }

  /** What precedes the path of a URL, without its scheme. */
  function Authority(url: string): string {
    var afterScheme := match SplitOnce(url, "://") case Some((_, rest)) => rest case None => url;
    afterScheme[..AuthorityLength(afterScheme)]
  }

  /** The host of a URL: no scheme, no user info, no path, query or fragment. */
  function EndpointHost(url: string): string {
    match SplitLast(Authority(url), "@")
    case None => Authority(url)
    case Some((_, host)) => host
  }

  /** A host holds none of the delimiters of a path, a query, a fragment or user information. */
  lemma HostIsPlain(url: string, c: char)
    requires c in EndpointHost(url)
    ensures c != '/' && c != '?' && c != '#' && c != '@'
  {
    var authority := Authority(url);
    var host := EndpointHost(url);
    FindLastIsLast(authority, "@");
    var k :| 0 <= k < |host| && host[k] == c;
    var at := if FindLast(authority, "@").None? then k else FindLast(authority, "@").value + 1 + k;
    assert authority[at] == c;
    SingleOccurs(authority, "@", at);
    if c == '@' {
      ContainsAt(authority, "@", at);
    }
    AuthorityIsPlain(url, at);
  }

  lemma AuthorityIsPlain(url: string, at: nat)
    requires at < |Authority(url)|
    ensures !EndsAuthority(Authority(url)[at])
  {
  }

  /** Taking the host back out of a URL written from its parts, whatever the user info and the path hold. */
  lemma HostOfUrl(scheme: string, user: string, host: string, path: string)
    requires ':' !in scheme && '@' !in host
    requires forall c | c in user + "@" + host :: !EndsAuthority(c)
    requires path == "" || EndsAuthority(path[0])
    ensures EndpointHost(scheme + "://" + (user + "@" + host + path)) == host
  {
    var authority := user + "@" + host;
    var url := scheme + "://" + (authority + path);
    SplitOnceAt(scheme, "://", authority + path);
    AuthorityIs(authority, path);
    assert Authority(url) == authority;
    LastAt(user, host);
    assert authority[|user| + 1..] == host;
  }

  /** The same without user information: an `@` in the path does not count. */
  lemma HostOfPlainUrl(scheme: string, host: string, path: string)
    requires ':' !in scheme && '@' !in host
    requires forall c | c in host :: !EndsAuthority(c)
    requires path == "" || EndsAuthority(path[0])
    ensures EndpointHost(scheme + "://" + (host + path)) == host
  {
    SplitOnceAt(scheme, "://", host + path);
    AuthorityIs(host, path);
    assert Authority(scheme + "://" + (host + path)) == host;
    NoAt(host);
  }

  /** And without a scheme. */
  lemma HostOfBareAddress(host: string, path: string)
    requires !Contains(host + path, "://") && '@' !in host
    requires forall c | c in host :: !EndsAuthority(c)
    requires path == "" || EndsAuthority(path[0])
    ensures EndpointHost(host + path) == host
  {
    FindIsFirst(host + path, "://");
    AuthorityIs(host, path);
    assert Authority(host + path) == host;
    NoAt(host);
  }

  lemma NoAt(host: string)
    requires '@' !in host
    ensures SplitLast(host, "@") == None
  {
    FindLastIsLast(host, "@");
    if Contains(host, "@") {
      ContainsChars(host, "@", '@');
    }
  }

  /** The last `@` of user information and a host that has none is the one between them. */
  lemma LastAt(user: string, host: string)
    requires '@' !in host
    ensures FindLast(user + "@" + host, "@") == Some(|user|)
  {
    var authority := user + "@" + host;
    FindLastIsLast(authority, "@");
    SingleOccurs(authority, "@", |user|);
    ContainsAt(authority, "@", |user|);
    var last := FindLast(authority, "@").value;
    SingleOccurs(authority, "@", last);
    assert forall k | |user| < k < |authority| :: authority[k] == host[k - |user| - 1];
  }

  lemma AuthorityIs(authority: string, path: string)
    requires forall c | c in authority :: !EndsAuthority(c)
    requires path == "" || EndsAuthority(path[0])
    ensures AuthorityLength(authority + path) == |authority|
    ensures (authority + path)[..|authority|] == authority
  {
    var whole := authority + path;
    assert forall i | 0 <= i < |authority| :: whole[i] == authority[i] && authority[i] in authority;
    assert path != "" ==> whole[|authority|] == path[0];
  }

  datatype Span = Span(start: nat, end: nat)

  /** Where the first URL of a text starts and ends: at a scheme, and at the whitespace after it. */
  function NextUrl(s: string): (r: Option<Span>)
    ensures r.Some? ==> r.value.start < r.value.end <= |s|
  {
    match FirstScheme(Lower(s))
    case None => None
    case Some(start) =>
      SchemeStartsToken(s, start);
      Some(Span(start, start + TokenLength(s[start..])))
  }

  /** A scheme starts with a letter, so the token it starts is not empty. */
  lemma SchemeStartsToken(s: string, start: nat)
    requires FirstScheme(Lower(s)) == Some(start)
    ensures start < |s| && !IsWhitespace(s[start])
    ensures TokenLength(s[start..]) > 0
  {
    var p := FirstSchemeIsThere(Lower(s));
    OccursAtChars(Lower(s), p, start);
    assert p[0] == 'h' || p[0] == 'w';
    assert LowerChar(s[start]) == p[0];
  }

  /** The redacted text: each URL shrinks to its host. */
  function Redact(s: string): string
    decreases |s|
  {
    match NextUrl(s)
    case None => s
    case Some(Span(start, end)) => s[..start] + EndpointHost(s[start..end]) + Redact(s[end..])
  }

  /** One round of the loop: the first URL of `rest` moves to the output as its host. */
  method EmitHost(out: string, rest: string, start: nat) returns (out': string, rest': string)
    requires FirstScheme(Lower(rest)) == Some(start) && start < |rest| && TokenLength(rest[start..]) > 0
    ensures out' + Redact(rest') == out + Redact(rest)
    ensures |rest'| < |rest| && rest' == rest[|rest| - |rest'|..]
  {
    var end := start + TokenLength(rest[start..]);
    var host := EndpointHost(rest[start..end]);
    out' := out + rest[..start] + host;
    rest' := rest[end..];
    NextUrlAt(rest, start, end);
    EmitKeeps(out, rest, start, end);
  }

  /** The loop that rewrites a message, scanning one lowercased copy of it. */
  method RedactUrls(message: string) returns (out: string)
    ensures out == Redact(message)
  {
    out := "";
    var lowercase := Lower(message);
    var rest := message;
    while true
      invariant |rest| <= |message| && rest == message[|message| - |rest|..]
      invariant out + Redact(rest) == Redact(message)
      decreases |rest|
    {
      var searchable := lowercase[|message| - |rest|..];
      assert searchable == Lower(rest);
      var found := FirstScheme(searchable);
      if found.None? {
        break;
      }
      SchemeStartsToken(rest, found.value);
      out, rest := EmitHost(out, rest, found.value);
    }
    out := out + rest;
  }

  lemma RedactUnfolds(rest: string, start: nat, end: nat)
    requires NextUrl(rest) == Some(Span(start, end))
    ensures Redact(rest) == rest[..start] + EndpointHost(rest[start..end]) + Redact(rest[end..])
  {
  }

  lemma NextUrlAt(rest: string, start: nat, end: nat)
    requires FirstScheme(Lower(rest)) == Some(start) && start < |rest| && end == start + TokenLength(rest[start..])
    ensures NextUrl(rest) == Some(Span(start, end))
  {
  }

  lemma EmitKeeps(out: string, rest: string, start: nat, end: nat)
    requires NextUrl(rest) == Some(Span(start, end))
    ensures out + rest[..start] + EndpointHost(rest[start..end]) + Redact(rest[end..]) == out + Redact(rest)
  {
    RedactUnfolds(rest, start, end);
    Regroup(out, rest[..start], EndpointHost(rest[start..end]), Redact(rest[end..]), Redact(rest));
  }

  lemma Regroup(out: string, a: string, b: string, c: string, whole: string)
    requires whole == a + b + c
    ensures out + a + b + c == out + whole
  {
  }

  // ---------- What redaction guarantees ----------

  /** Redaction keeps a leading whitespace character, or an empty text, as it is. */
  lemma RedactKeepsBreak(s: string)
    requires s == "" || IsWhitespace(s[0])
    ensures s == "" ==> Redact(s) == ""
    ensures s != "" ==> Redact(s) != "" && Redact(s)[0] == s[0]
  {
    if NextUrl(s).Some? {
      SchemeStartsToken(s, NextUrl(s).value.start);
      assert NextUrl(s).value.start > 0;
    }
  }

  /** Needles that end in a slash and hold no whitespace. */
  predicate SchemeLike(p: string) {
    p != "" && p[|p| - 1] == '/' && forall c | c in p :: !IsWhitespace(c)
  }

  lemma SchemesAreSchemeLike(p: string)
    requires p in SCHEMES
    ensures SchemeLike(p)
  {
  }

  /** No occurrence can straddle a host that is spliced in before a break. */
  lemma SpliceHidesNothing(a: string, host: string, r: string, p: string, i: nat)
    requires SchemeLike(p)
    requires forall c | c in host :: c != '/'
    requires r == "" || IsWhitespace(r[0])
    requires OccursAt(Lower(a + host + r), p, i)
    ensures (i + |p| <= |a| && OccursAt(Lower(a), p, i))
         || (|a| + |host| <= i && OccursAt(Lower(r), p, i - |a| - |host|))
  {
    var whole := a + host + r;
    OccursAtChars(Lower(whole), p, i);
    if i + |p| <= |a| {
      OccursAtShift(Lower(whole), p, i, Lower(a), i);
    } else if |a| + |host| <= i {
      OccursAtShift(Lower(whole), p, i, Lower(r), i - |a| - |host|);
    } else if i + |p| <= |a| + |host| {
      LastCharInHost(a, host, r, p, i);
      assert false;
    } else {
      BreakInside(a, host, r, p, i);
      assert false;
    }
  }

  lemma LastCharInHost(a: string, host: string, r: string, p: string, i: nat)
    requires SchemeLike(p) && OccursAt(Lower(a + host + r), p, i)
    requires |a| < i + |p| <= |a| + |host|
    ensures '/' in host
  {
    var last := i + |p| - 1;
    OccursAtChars(Lower(a + host + r), p, i);
    assert Lower(a + host + r)[last] == p[|p| - 1];
    assert (a + host + r)[last] == host[last - |a|];
    assert LowerChar(host[last - |a|]) == '/';
    assert host[last - |a|] == '/';
  }

  lemma BreakInside(a: string, host: string, r: string, p: string, i: nat)
    requires OccursAt(Lower(a + host + r), p, i)
    requires i < |a| + |host| < i + |p|
    ensures r != "" && LowerChar(r[0]) in p
  {
    var at := |a| + |host|;
    OccursAtChars(Lower(a + host + r), p, i);
    assert Lower(a + host + r)[at] == p[at - i];
    assert (a + host + r)[at] == r[0];
  }

  /** The redacted text holds no URL scheme in any letter case, not even across the splices. */
  lemma {:induction false} RedactedHasNoScheme(s: string)
    ensures forall p | p in SCHEMES :: !Contains(Lower(Redact(s)), p)
    decreases |s|
  {
    if NextUrl(s).None? {
      forall p | p in SCHEMES ensures !Contains(Lower(s), p) {
        NoneFound(Lower(s), p);
      }
    } else {
      var start, end := NextUrl(s).value.start, NextUrl(s).value.end;
      var host, rest := EndpointHost(s[start..end]), s[end..];
      RedactedHasNoScheme(rest);
      RedactKeepsBreak(rest);
      forall c | c in host ensures c != '/' {
        HostIsPlain(s[start..end], c);
      }
      assert Redact(s) == s[..start] + host + Redact(rest);
      forall p | p in SCHEMES ensures !Contains(Lower(Redact(s)), p) {
        SpliceHasNoScheme(s, start, host, Redact(rest), p);
      }
    }
  }

  /** Before the first scheme there is none, and splicing a host in front of clean text makes none. */
  lemma SpliceHasNoScheme(s: string, start: nat, host: string, r: string, p: string)
    requires FirstScheme(Lower(s)) == Some(start) && start <= |s| && p in SCHEMES
    requires forall c | c in host :: c != '/'
    requires r == "" || IsWhitespace(r[0])
    requires !Contains(Lower(r), p)
    ensures !Contains(Lower(s[..start] + host + r), p)
  {
    var whole := s[..start] + host + r;
    SchemesAreSchemeLike(p);
    if Contains(Lower(whole), p) {
      var i :| 0 <= i <= |Lower(whole)| && OccursAt(Lower(whole), p, i);
      SpliceHidesNothing(s[..start], host, r, p, i);
      if i + |p| <= start && OccursAt(Lower(s[..start]), p, i) {
        OccursAtShift(Lower(s[..start]), p, i, Lower(s), i);
        FirstSchemeIsFirst(Lower(s), p, i);
      }
      assert false;
    }
  }

  /** A text without a scheme passes through unchanged. */
  lemma SchemelessIsKept(s: string)
    requires forall p | p in SCHEMES :: !Contains(Lower(s), p)
    ensures Redact(s) == s
  {
    if FirstScheme(Lower(s)).Some? {
      var p := FirstSchemeIsThere(Lower(s));
      ContainsAt(Lower(s), p, FirstScheme(Lower(s)).value);
    }
  }

  lemma NoneFound(lower: string, p: string)
    requires FirstScheme(lower).None? && p in SCHEMES
    ensures !Contains(lower, p)
  {
    if Contains(lower, p) {
      var i :| 0 <= i <= |lower| && OccursAt(lower, p, i);
      FirstSchemeIsFirst(lower, p, i);
    }
  }

  /** The four schemes by name: none is left, and a text without them is not touched. */
  lemma NoUrlIsLeft(s: string)
    ensures var m := Lower(Redact(s));
            !Contains(m, "http://") && !Contains(m, "https://") && !Contains(m, "ws://") && !Contains(m, "wss://")
    ensures var m := Lower(s);
            !Contains(m, "http://") && !Contains(m, "https://") && !Contains(m, "ws://") && !Contains(m, "wss://")
            ==> Redact(s) == s
  {
    RedactedHasNoScheme(s);
    assert SCHEMES[0] in SCHEMES && SCHEMES[1] in SCHEMES && SCHEMES[2] in SCHEMES && SCHEMES[3] in SCHEMES;
    var m := Lower(s);
    if !Contains(m, SCHEMES[0]) && !Contains(m, SCHEMES[1]) && !Contains(m, SCHEMES[2]) && !Contains(m, SCHEMES[3]) {
      SchemelessIsKept(s);
    }
  }

  /** The text before a URL is kept, the URL becomes its host, and the rest is redacted in turn. */
  lemma FirstUrlShrinks(before: string, url: string, after: string, p: string)
    requires p in SCHEMES && p <= Lower(url) && forall c | c in url :: !IsWhitespace(c)
    requires after == "" || IsWhitespace(after[0])
    requires forall q, i | q in SCHEMES && 0 <= i < |before| :: !OccursAt(Lower(before + (url + after)), q, i)
    ensures Redact(before + (url + after)) == before + EndpointHost(url) + Redact(after)
  {
    FirstUrlIs(before, url, after, p);
    UrlParts(before, url, after);
    RedactParts(before + (url + after), before, url, after);
  }

  lemma RedactParts(s: string, before: string, url: string, after: string)
    requires NextUrl(s) == Some(Span(|before|, |before| + |url|))
    requires s[..|before|] == before && s[|before|..|before| + |url|] == url && s[|before| + |url|..] == after
    ensures Redact(s) == before + EndpointHost(url) + Redact(after)
  {
    RedactUnfolds(s, |before|, |before| + |url|);
  }

  lemma FirstUrlIs(before: string, url: string, after: string, p: string)
    requires p in SCHEMES && p <= Lower(url) && forall c | c in url :: !IsWhitespace(c)
    requires after == "" || IsWhitespace(after[0])
    requires forall q, i | q in SCHEMES && 0 <= i < |before| :: !OccursAt(Lower(before + (url + after)), q, i)
    ensures NextUrl(before + (url + after)) == Some(Span(|before|, |before| + |url|))
  {
    var s := before + (url + after);
    SchemeStandsAt(before, url, after, p);
    FirstSchemeAt(Lower(s), p, |before|);
    SchemeStartsToken(s, |before|);
    assert s[|before|..] == url + after;
    TokenIs(url, after);
    NextUrlAt(s, |before|, |before| + |url|);
  }

  lemma UrlParts(before: string, url: string, after: string)
    ensures var s := before + (url + after);
            && s[..|before|] == before && s[|before|..|before| + |url|] == url && s[|before| + |url|..] == after
  {
  }

  lemma FirstSchemeAt(lower: string, p: string, start: nat)
    requires p in SCHEMES && OccursAt(lower, p, start)
    requires forall q, i | q in SCHEMES && 0 <= i < start :: !OccursAt(lower, q, i)
    ensures FirstScheme(lower) == Some(start)
  {
    FirstSchemeIsFirst(lower, p, start);
    var q := FirstSchemeIsThere(lower);
    assert OccursAt(lower, q, FirstScheme(lower).value);
  }

  lemma SchemeStandsAt(before: string, url: string, after: string, p: string)
    requires p <= Lower(url)
    ensures OccursAt(Lower(before + (url + after)), p, |before|)
  {
    LowerConcat(before, url + after);
    LowerConcat(url, after);
    assert OccursAt(Lower(url), p, 0);
    OccursAtShift(Lower(url), p, 0, Lower(before) + (Lower(url) + Lower(after)), |before|);
  }

  lemma TokenIs(token: string, rest: string)
    requires (forall c | c in token :: !IsWhitespace(c)) && (rest == "" || IsWhitespace(rest[0]))
    ensures TokenLength(token + rest) == |token|
  {
    var whole := token + rest;
    assert forall i | 0 <= i < |token| :: whole[i] == token[i] && token[i] in token;
    assert rest != "" ==> whole[|token|] == rest[0];
  }

  /** Redacting twice is redacting once. */
  lemma RedactIsIdempotent(s: string)
    ensures Redact(Redact(s)) == Redact(s)
  {
    RedactedHasNoScheme(s);
    SchemelessIsKept(Redact(s));
  }
}
