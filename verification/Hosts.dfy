// Endpoint classification and base-URL resolution (src/api/config.rs).
module Hosts {
  import opened Prelude
  import Handoff

  type Octet = n: nat | n < 256

  datatype Host = Domain(name: string) | Ipv4(a: Octet, b: Octet, c: Octet, d: Octet) | Ipv6(value: nat)

  /** What a parsed URL offers the classifiers: its host as text and typed, its port if not the default, its path. */
  datatype Url = Url(hostText: Option<string>, host: Option<Host>, port: Option<nat>, path: string)

  predicate EndsWith(s: string, tail: string) {
    SuffixOf(tail, s)
  }

  predicate StartsWith(s: string, head: string) {
    head <= s
  }

  // ------------------------------------------------------------------
  // Suffix tests are label tests
  // ------------------------------------------------------------------

  /** The test used for a host and a registrable domain. */
  predicate HostMatches(host: string, domain: string) {
    host == domain || EndsWith(host, "." + domain)
  }

  /** A text ends in a separator and `t` exactly when the pieces of `t` are the last pieces of it, after some other. */
  lemma SeparatedSuffixIff(s: string, t: string, sep: char)
    ensures SuffixOf([sep] + t, s) <==> SuffixOf(Split(t, sep), Split(s, sep)) && |Split(t, sep)| < |Split(s, sep)|
  {
    if SuffixOf([sep] + t, s) {
      SuffixSplits(s, t, sep);
    }
    if SuffixOf(Split(t, sep), Split(s, sep)) && |Split(t, sep)| < |Split(s, sep)| {
      SplitsSuffix(s, t, sep);
    }
  }

  lemma SuffixSplits(s: string, t: string, sep: char)
    requires SuffixOf([sep] + t, s)
    ensures SuffixOf(Split(t, sep), Split(s, sep)) && |Split(t, sep)| < |Split(s, sep)|
  {
    var pre := s[..|s| - |t| - 1];
    assert s == pre + [sep] + t;
    SplitAppend(pre, t, sep);
    AppendedIsSuffix(Split(pre, sep), Split(t, sep));
  }

  lemma AppendedIsSuffix<T>(a: seq<T>, b: seq<T>)
    ensures SuffixOf(b, a + b)
  {
    assert (a + b)[|a|..] == b;
  }

  lemma SplitsSuffix(s: string, t: string, sep: char)
    requires SuffixOf(Split(t, sep), Split(s, sep)) && |Split(t, sep)| < |Split(s, sep)|
    ensures SuffixOf([sep] + t, s)
  {
    var ss, ts := Split(s, sep), Split(t, sep);
    var front := ss[..|ss| - |ts|];
    assert ss == front + ts;
    JoinSplit(s, sep);
    JoinSplit(t, sep);
    JoinedSuffix(front, ts, sep);
  }

  lemma JoinedSuffix(front: seq<string>, ts: seq<string>, sep: char)
    requires |ts| > 0 && |front| > 0
    ensures SuffixOf([sep] + Join(ts, sep), Join(front + ts, sep))
  {
    JoinAppend(front, ts, sep);
    EndsIn(Join(front, sep), [sep], Join(ts, sep));
  }

  lemma EndsIn(a: string, b: string, c: string)
    ensures SuffixOf(b + c, a + b + c)
  {
    assert a + b + c == a + (b + c);
    AppendedIsSuffix(a, b + c);
  }

  /**
   * For every host and domain, the textual test holds exactly when the domain's
   * labels are the last labels of the host.
   */
  lemma HostMatchesIffLabels(host: string, domain: string)
    ensures HostMatches(host, domain) <==> SuffixOf(Split(domain, '.'), Split(host, '.'))
  {
    SeparatedSuffixIff(host, domain, '.');
    JoinSplit(host, '.');
    JoinSplit(domain, '.');
    var hs, ds := Split(host, '.'), Split(domain, '.');
    if SuffixOf(ds, hs) && |ds| == |hs| {
      assert hs[0..] == hs;
    }
    assert host == domain ==> hs[|hs| - |ds|..] == ds;
  }

  lemma {:induction false} SplitLonger(x: string, t: string, sep: char)
    requires sep !in x
    ensures |Split(x + t, sep)| == |Split(t, sep)| && Split(x + t, sep)[0] == x + Split(t, sep)[0]
  {
    if x == "" {
      assert x + t == t;
    } else {
      assert (x + t)[1..] == x[1..] + t && x[0] in x;
      SplitLonger(x[1..], t, sep);
    }
  }

  /** A host whose label merely ends in the domain's first label never matches. */
  lemma LongerLabelNeverMatches(x: string, domain: string)
    requires x != "" && '.' !in x
    ensures !HostMatches(x + domain, domain)
  {
    HostMatchesIffLabels(x + domain, domain);
    SplitLonger(x, domain, '.');
    var hs, ds := Split(x + domain, '.'), Split(domain, '.');
    assert hs[|hs| - |ds|..][0] == hs[0] && |hs[0]| > |ds[0]|;
  }

  // ------------------------------------------------------------------
  // Classifiers
  // ------------------------------------------------------------------

  const LOCAL_AI_PORTS := {11434, 8000, 8080, 1234, 8888}

  const INFERENCE_PROVIDER_DOMAINS := {
    "openrouter.ai", "openmodel.ai", "atlascloud.ai", "openai.com", "anthropic.com", "groq.com", "mistral.ai",
    "deepseek.com", "together.ai", "together.xyz", "perplexity.ai", "fireworks.ai", "deepinfra.com", "anyscale.com",
    "novita.ai", "hyperbolic.xyz", "x.ai", "googleapis.com", "cohere.ai", "cohere.com" }

  lemma ProviderDomains()
    ensures INFERENCE_PROVIDER_DOMAINS ==
      {"openrouter.ai", "openmodel.ai", "atlascloud.ai", "mistral.ai", "together.ai", "perplexity.ai", "fireworks.ai",
       "novita.ai", "x.ai", "cohere.ai"}
      + {"openai.com", "anthropic.com", "groq.com", "deepseek.com", "deepinfra.com", "anyscale.com", "googleapis.com",
         "cohere.com"}
      + {"together.xyz", "hyperbolic.xyz"}
  {
  }

  predicate HostIsLocal(u: Url) {
    match u.host
    case None => false
    case Some(Ipv4(a, b, c, d)) =>
      || a == 127
      || (a == 0 && b == 0 && c == 0 && d == 0)
      || a == 10 || (a == 172 && 16 <= b < 32) || (a == 192 && b == 168)
    case Some(Ipv6(value)) => value == 0 || value == 1
    case Some(Domain(name)) => Lower(name) == "localhost" || EndsWith(Lower(name), ".localhost")
  }

  predicate LooksLikeLocalAi(u: Url) {
    || EndsWith(u.path, "/v1/chat/completions") || EndsWith(u.path, "/v1/completions")
    || (HostIsLocal(u)
        && ((u.port.Some? && u.port.value in LOCAL_AI_PORTS) || StartsWith(u.path, "/v1/") || u.path == "/v1"))
  }

  predicate LooksLikeOpenHumanBackend(u: Url) {
    u.hostText.Some? && Lower(u.hostText.value) in {"api.tinyhumans.ai", "staging-api.tinyhumans.ai"}
  }

  function TrimSlashes(s: string): string {
    TrimRight(s, c => c == '/')
  }

  predicate MatchesAny(host: string, domains: set<string>) {
    exists d | d in domains :: HostMatches(host, d)
  }

  /** The host is one of the domains or lies below one, label by label. */
  predicate WithinAny(host: string, domains: set<string>) {
    exists d | d in domains :: SuffixOf(Split(d, '.'), Split(host, '.'))
  }

  lemma MatchesAnyIff(host: string, domains: set<string>)
    ensures MatchesAny(host, domains) <==> WithinAny(host, domains)
  {
    forall d ensures HostMatches(host, d) <==> SuffixOf(Split(d, '.'), Split(host, '.')) {
      HostMatchesIffLabels(host, d);
    }
  }

  predicate LooksLikeInferenceProvider(u: Url) {
    && !LooksLikeOpenHumanBackend(u)
    && (|| (u.hostText.Some? && MatchesAny(Lower(u.hostText.value), INFERENCE_PROVIDER_DOMAINS))
        || TrimSlashes(u.path) in {"/api/v1", "/v1"})
  }

  /** The IPv6 form `::ffff:a.b.c.d` of an IPv4 address. */
  function Mapped(a: Octet, b: Octet, c: Octet, d: Octet): Host {
    Ipv6(0xFFFF_0000_0000 + a * 0x100_0000 + b * 0x1_0000 + c * 0x100 + d)
  }

  /** A mapped address never counts as local, so it classifies like its IPv4 form just when that is not local. */
  lemma MappedAddressIff(u: Url, a: Octet, b: Octet, c: Octet, d: Octet)
    ensures HostIsLocal(u.(host := Some(Mapped(a, b, c, d)))) == HostIsLocal(u.(host := Some(Ipv4(a, b, c, d)))) <==>
      !HostIsLocal(u.(host := Some(Ipv4(a, b, c, d))))
    ensures HostIsLocal(u.(host := Some(Ipv4(127, 0, 0, 1)))) && !HostIsLocal(u.(host := Some(Mapped(127, 0, 0, 1))))
  {
  }

  /** The host is this machine or a private address; a name counts by its last label. */
  predicate LocalByLabels(u: Url) {
    match u.host
    case None => false
    case Some(Ipv4(a, b, c, d)) =>
      a in {10, 127} || a == b == c == d == 0 || (a == 172 && b / 16 == 1) || (a == 192 && b == 168)
    case Some(Ipv6(value)) => value in {0, 1}
    case Some(Domain(name)) => SuffixOf(["localhost"], Split(Lower(name), '.'))
  }

  lemma SingleLabelIff(name: string, tail: string)
    requires '.' !in tail
    ensures name == tail || EndsWith(name, "." + tail) <==> SuffixOf([tail], Split(name, '.'))
  {
    SplitPiece(tail, "", '.');
    HostMatchesIffLabels(name, tail);
  }

  lemma LocalNameIff(name: string)
    ensures name == "localhost" || EndsWith(name, ".localhost") <==> SuffixOf(["localhost"], Split(name, '.'))
  {
    hide Split, SuffixOf, EndsWith;
    assert "." + "localhost" == ".localhost";
    SingleLabelIff(name, "localhost");
  }

  lemma HostIsLocalIff(u: Url)
    ensures HostIsLocal(u) <==> LocalByLabels(u)
  {
    hide Split, SuffixOf, EndsWith;
    match u.host
    case Some(Domain(name)) => LocalNameIff(Lower(name));
    case _ =>
  }

  /** A completions path on any host, or a local host with a runner's port or a path below `/v1`. */
  predicate LocalAiBySegments(u: Url) {
    var segments := Split(u.path, '/');
    || (SuffixOf(["v1", "chat", "completions"], segments) && 3 < |segments|)
    || (SuffixOf(["v1", "completions"], segments) && 2 < |segments|)
    || (LocalByLabels(u)
        && (u.port in {Some(11434), Some(8000), Some(8080), Some(1234), Some(8888)}
            || (2 <= |segments| && segments[..2] == ["", "v1"])))
  }

  /** The local-runner test in terms of labels and path segments. */
  lemma LocalAiIff(u: Url)
    ensures LooksLikeLocalAi(u) <==> LocalAiBySegments(u)
  {
    HostIsLocalIff(u);
    CompletionPathIff(u.path);
    FirstSegmentIff(u.path);
  }

  predicate OwnByName(u: Url) {
    match u.hostText
    case None => false
    case Some(host) => Lower(host) == "api.tinyhumans.ai" || Lower(host) == "staging-api.tinyhumans.ai"
  }

  /** The path is `base`, slashes after it aside. */
  ghost predicate PathIs(path: string, base: string) {
    exists slashes :: path == base + slashes && forall c | c in slashes :: c == '/'
  }

  lemma PathIsIff(path: string, base: string)
    requires base != "" && base[|base| - 1] != '/'
    ensures TrimSlashes(path) == base <==> PathIs(path, base)
  {
    if TrimSlashes(path) == base {
      var slashes := TrimRightParts(path, c => c == '/');
    }
    forall slashes | path == base + slashes && (forall c | c in slashes :: c == '/') ensures TrimSlashes(path) == base {
      assert forall i | 0 <= i < |slashes| :: slashes[i] in slashes;
      TrimRightOf(base, slashes, c => c == '/');
    }
  }

  /** A host at or below a listed domain, or a bare API version as the whole path, on a host that is not the own one. */
  ghost predicate ProviderBySegments(u: Url) {
    && !OwnByName(u)
    && (|| (u.hostText.Some? && WithinAny(Lower(u.hostText.value), INFERENCE_PROVIDER_DOMAINS))
        || PathIs(u.path, "/api/v1") || PathIs(u.path, "/v1"))
  }

  lemma ProviderIff(u: Url)
    ensures LooksLikeInferenceProvider(u) <==> ProviderBySegments(u)
  {
    hide WithinAny, MatchesAny, PathIs;
    PathIsIff(u.path, "/api/v1");
    PathIsIff(u.path, "/v1");
    if u.hostText.Some? {
      MatchesAnyIff(Lower(u.hostText.value), INFERENCE_PROVIDER_DOMAINS);
    }
  }

  /** The path suffix tests are segment suffix tests. */
  lemma SegmentSuffixIff(path: string, segments: seq<string>)
    requires segments != [] && forall s | s in segments :: '/' !in s
    ensures SuffixOf(['/'] + Join(segments, '/'), path) <==>
      SuffixOf(segments, Split(path, '/')) && |segments| < |Split(path, '/')|
  {
    SplitJoin(segments, '/');
    SeparatedSuffixIff(path, Join(segments, '/'), '/');
  }

  lemma SuffixOfTwo(path: string, a: string, b: string)
    requires '/' !in a && '/' !in b
    ensures SuffixOf("/" + a + "/" + b, path) <==> SuffixOf([a, b], Split(path, '/')) && 2 < |Split(path, '/')|
  {
    SegmentSuffixIff(path, [a, b]);
    assert [a, b][1..] == [b];
    assert "/" + a + "/" + b == ['/'] + (a + ['/'] + b);
  }

  lemma SuffixOfThree(path: string, a: string, b: string, c: string)
    requires '/' !in a && '/' !in b && '/' !in c
    ensures SuffixOf("/" + a + "/" + b + "/" + c, path) <==>
      SuffixOf([a, b, c], Split(path, '/')) && 3 < |Split(path, '/')|
  {
    SegmentSuffixIff(path, [a, b, c]);
    assert [a, b, c][1..] == [b, c] && [b, c][1..] == [c];
    assert Join([b, c], '/') == b + ['/'] + c;
    assert "/" + a + "/" + b + "/" + c == ['/'] + (a + ['/'] + (b + ['/'] + c));
  }

  lemma CompletionPathIff(path: string)
    ensures EndsWith(path, "/v1/chat/completions") <==>
      SuffixOf(["v1", "chat", "completions"], Split(path, '/')) && 3 < |Split(path, '/')|
    ensures EndsWith(path, "/v1/completions") <==>
      SuffixOf(["v1", "completions"], Split(path, '/')) && 2 < |Split(path, '/')|
  {
    CompletionTexts();
    SuffixOfThree(path, "v1", "chat", "completions");
    SuffixOfTwo(path, "v1", "completions");
  }

  lemma CompletionTexts()
    ensures "/" + "v1" + "/" + "chat" + "/" + "completions" == "/v1/chat/completions"
    ensures "/" + "v1" + "/" + "completions" == "/v1/completions"
  {
  }

  lemma FirstSegmentIff(path: string)
    ensures StartsWith(path, "/v1/") || path == "/v1" <==>
      var segments := Split(path, '/'); 2 <= |segments| && segments[..2] == ["", "v1"]
  {
    if StartsWith(path, "/v1/") {
      LeadingSegment("v1", path[4..]);
      assert path == "/" + "v1" + "/" + path[4..];
    } else if path == "/v1" {
      OnlySegment("v1");
    }
    var segments := Split(path, '/');
    if 2 <= |segments| && segments[..2] == ["", "v1"] {
      JoinSplit(path, '/');
      assert segments == ["", "v1"] + segments[2..];
      JoinLeading("v1", segments[2..]);
      assert "/" + "v1" == "/v1" && "/" + "v1" + "/" == "/v1/";
    }
  }

  lemma LeadingSegment(name: string, rest: string)
    requires '/' !in name
    ensures Split("/" + name + "/" + rest, '/') == ["", name] + Split(rest, '/')
  {
    hide Split;
    SplitPiece(name, rest, '/');
    SplitPiece("", name + ['/'] + rest, '/');
    assert "/" + name + "/" + rest == "" + ['/'] + (name + ['/'] + rest);
  }

  lemma OnlySegment(name: string)
    requires '/' !in name
    ensures Split("/" + name, '/') == ["", name]
  {
    SplitPiece(name, "", '/');
    SplitPiece("", name, '/');
    assert "/" + name == "" + ['/'] + name;
  }

  lemma JoinLeading(name: string, tail: seq<string>)
    ensures Join(["", name] + tail, '/') == if tail == [] then "/" + name else "/" + name + "/" + Join(tail, '/')
  {
    assert ["", name][1..] == [name];
    if tail == [] {
      assert ["", name] + tail == ["", name];
    } else {
      JoinAppend(["", name], tail, '/');
    }
  }

  // ------------------------------------------------------------------
  // Resolution
  // ------------------------------------------------------------------

  /** Trims blanks, then trailing slashes. */
  function NormalizeApiBaseUrl(url: string): string {
    TrimSlashes(Trim(url, Handoff.IsWhitespace))
  }

  /** A base with blanks around it and slashes after it normalizes to itself. */
  lemma NormalizeOf(pre: string, base: string, slashes: string, post: string)
    requires AllOf(pre, Handoff.IsWhitespace) && AllOf(post, Handoff.IsWhitespace)
    requires Trimmed(base + slashes, Handoff.IsWhitespace)
    requires (forall c | c in slashes :: c == '/') && (base == "" || base[|base| - 1] != '/')
    ensures NormalizeApiBaseUrl(pre + (base + slashes) + post) == base
  {
    hide Handoff.IsWhitespace;
    TrimOf(pre, base + slashes, post, Handoff.IsWhitespace);
    assert forall i | 0 <= i < |slashes| :: slashes[i] in slashes;
    TrimRightOf(base, slashes, c => c == '/');
  }

  /** From position `k` on there are only slashes, and a blank stands before them. */
  predicate BlankThenSlashes(s: string, k: int) {
    0 < k < |s| && Handoff.IsWhitespace(s[k - 1]) && forall i | k <= i < |s| :: s[i] == '/'
  }

  /**
   * Normalizing twice changes the text again exactly when, blanks around it
   * aside, it ends in slashes with a blank in front of them: blanks are trimmed
   * before slashes.
   */
  lemma NormalizeTwiceIff(url: string)
    ensures var once := NormalizeApiBaseUrl(url);
      NormalizeApiBaseUrl(once) != once <==> exists k :: BlankThenSlashes(Trim(url, Handoff.IsWhitespace), k)
  {
    hide Trim, BlankThenSlashes, Handoff.IsWhitespace;
    StableIff(url);
    EndsBlankIff(url);
  }

  lemma EndsBlankIff(url: string)
    ensures var once := NormalizeApiBaseUrl(url);
      once != "" && Handoff.IsWhitespace(once[|once| - 1]) <==>
        exists k :: BlankThenSlashes(Trim(url, Handoff.IsWhitespace), k)
  {
    hide Handoff.IsWhitespace;
    var s := Trim(url, Handoff.IsWhitespace);
    var once := TrimSlashes(s);
    var pre, post := TrimParts(url, Handoff.IsWhitespace);
    var slashes := TrimRightParts(s, c => c == '/');
    if once != "" && Handoff.IsWhitespace(once[|once| - 1]) {
      assert slashes == "" ==> once == s;
      assert BlankThenSlashes(s, |once|);
    }
    if k :| BlankThenSlashes(s, k) {
      SlashesComeOff(s, k);
    }
  }

  lemma SlashesComeOff(s: string, k: nat)
    requires BlankThenSlashes(s, k)
    ensures TrimSlashes(s) == s[..k]
  {
    TrimRightOf(s[..k], s[k..], c => c == '/');
    TakeDrop(s, k);
  }

  lemma StableIff(url: string)
    ensures var once := NormalizeApiBaseUrl(url);
      NormalizeApiBaseUrl(once) == once <==> once == "" || !Handoff.IsWhitespace(once[|once| - 1])
  {
    var trimmed := Trim(url, Handoff.IsWhitespace);
    var once := NormalizeApiBaseUrl(url);
    var pre, post := TrimParts(url, Handoff.IsWhitespace);
    var slashes := TrimRightParts(trimmed, c => c == '/');
    assert once != "" ==> once[0] == trimmed[0];
    if once == "" || !Handoff.IsWhitespace(once[|once| - 1]) {
      TrimmedStays(once);
      assert TrimSlashes(once) == once;
    } else {
      TrimShrinks(once);
    }
  }

  lemma TrimmedStays(s: string)
    requires Trimmed(s, Handoff.IsWhitespace)
    ensures Trim(s, Handoff.IsWhitespace) == s
  {
    assert "" + s + "" == s;
    TrimOf("", s, "", Handoff.IsWhitespace);
  }

  lemma TrimShrinks(s: string)
    requires s != "" && Handoff.IsWhitespace(s[|s| - 1])
    ensures |NormalizeApiBaseUrl(s)| < |s|
  {
    var pre, post := TrimParts(s, Handoff.IsWhitespace);
    var slashes := TrimRightParts(Trim(s, Handoff.IsWhitespace), c => c == '/');
    if post == "" {
      assert s == pre + Trim(s, Handoff.IsWhitespace);
    }
  }

  /** The smallest such text: a blank in front of its slash. */
  lemma NormalizeTwiceExample()
    ensures NormalizeApiBaseUrl("x /") == "x " && NormalizeApiBaseUrl("x ") == "x"
  {
    assert "" + "x /" + "" == "x /";
    TrimOf("", "x /", "", Handoff.IsWhitespace);
    assert "" + "x" + " " == "x ";
    TrimOf("", "x", " ", Handoff.IsWhitespace);
    assert "x /"[..2] == "x ";
  }

  /** First usable value: runtime variables in order, then the built-in ones in order. */
  method ApiBaseFromEnv(runtime: seq<Option<string>>, builtIn: seq<Option<string>>) returns (r: Option<string>)
    ensures r == FirstUsable(runtime + builtIn)
  {
    for i := 0 to |runtime|
      invariant FirstUsable(runtime + builtIn) == FirstUsable(runtime[i..] + builtIn)
    {
      assert (runtime[i..] + builtIn)[1..] == runtime[i + 1..] + builtIn;
      if runtime[i].Some? {
        var url := NormalizeApiBaseUrl(runtime[i].value);
        if url != "" {
          return Some(url);
        }
      }
    }
    assert runtime[|runtime|..] + builtIn == builtIn[0..];
    for i := 0 to |builtIn|
      invariant FirstUsable(runtime + builtIn) == FirstUsable(builtIn[i..])
    {
      assert builtIn[i..][1..] == builtIn[i + 1..];
      if builtIn[i].Some? {
        var url := NormalizeApiBaseUrl(builtIn[i].value);
        if url != "" {
          return Some(url);
        }
      }
    }
    return None;
  }

  function FirstUsable(values: seq<Option<string>>): Option<string> {
    if values == [] then None
    else if values[0].Some? && NormalizeApiBaseUrl(values[0].value) != "" then
      Some(NormalizeApiBaseUrl(values[0].value))
    else FirstUsable(values[1..])
  }

  predicate Usable(v: Option<string>) {
    v.Some? && NormalizeApiBaseUrl(v.value) != ""
  }

  /** A variable that is unset or blank never hides a later one. */
  lemma {:induction false} FirstUsableIff(values: seq<Option<string>>, url: string)
    ensures FirstUsable(values) == Some(url) <==>
      exists i :: 0 <= i < |values| && Usable(values[i]) && url == NormalizeApiBaseUrl(values[i].value)
                  && forall j | 0 <= j < i :: !Usable(values[j])
  {
    if values == [] {
    } else {
      FirstUsableIff(values[1..], url);
      if FirstUsable(values) == Some(url) && !Usable(values[0]) {
        var i :| 0 <= i < |values[1..]| && Usable(values[1..][i]) && url == NormalizeApiBaseUrl(values[1..][i].value)
                 && forall j | 0 <= j < i :: !Usable(values[1..][j]);
        assert forall j | 0 <= j < i + 1 :: !Usable(values[j]) by {
          forall j | 0 <= j < i + 1 ensures !Usable(values[j]) {
            if j > 0 { assert !Usable(values[1..][j - 1]); }
          }
        }
        assert Usable(values[i + 1]);
      }
      if i :| 0 <= i < |values| && Usable(values[i]) && url == NormalizeApiBaseUrl(values[i].value)
              && forall j | 0 <= j < i :: !Usable(values[j]) {
        if i > 0 {
          assert !Usable(values[0]);
          assert Usable(values[1..][i - 1]);
          assert forall j | 0 <= j < i - 1 :: !Usable(values[1..][j]);
        }
      }
    }
  }

  /**
   * Where backend calls go: the override when it is set and is a backend, else
   * the environment, else the default. `parse`, `strip` and `cloudHost` stand
   * for URL parsing, path stripping and the built-in cloud host list.
   */
  function EffectiveBackendApiUrl(
    override: Option<string>, parse: string -> Option<Url>, strip: string -> string, cloudHost: string -> bool,
    env: Option<string>, fallback: string): string
  {
    var u := if override.Some? then Trim(override.value, Handoff.IsWhitespace) else "";
    if u != "" && UseOverride(parse(u), cloudHost(u)) then strip(u)
    else if env.Some? then strip(env.value) else fallback
  }

  predicate UseOverride(parsed: Option<Url>, cloud: bool) {
    var localAi := parsed.Some? && LooksLikeLocalAi(parsed.value);
    var provider := parsed.Some? && LooksLikeInferenceProvider(parsed.value);
    var own := parsed.Some? && LooksLikeOpenHumanBackend(parsed.value);
    (!localAi && !provider && !cloud) || own
  }

  /** An override is for the backend when nothing marks it as an inference endpoint, or its host is the own one. */
  ghost predicate ForBackend(parsed: Option<Url>, cloud: bool) {
    match parsed
    case None => !cloud
    case Some(u) => OwnByName(u) || (!LocalAiBySegments(u) && !ProviderBySegments(u) && !cloud)
  }

  lemma UseOverrideIff(parsed: Option<Url>, cloud: bool)
    ensures UseOverride(parsed, cloud) <==> ForBackend(parsed, cloud)
  {
    hide LooksLikeLocalAi, LooksLikeInferenceProvider, LocalAiBySegments, ProviderBySegments;
    if parsed.Some? {
      LocalAiIff(parsed.value);
      ProviderIff(parsed.value);
    }
  }

  /**
   * Backend calls go to the override exactly when it is not blank and for the
   * backend, in terms of labels and segments; otherwise to the environment's
   * base, or the default when there is none.
   */
  lemma OverrideByLabels(
    pre: string, u: string, post: string, parse: string -> Option<Url>, strip: string -> string,
    cloudHost: string -> bool, env: Option<string>, fallback: string)
    requires AllOf(pre, Handoff.IsWhitespace) && AllOf(post, Handoff.IsWhitespace) && Trimmed(u, Handoff.IsWhitespace)
    ensures EffectiveBackendApiUrl(Some(pre + u + post), parse, strip, cloudHost, env, fallback) ==
      if u != "" && ForBackend(parse(u), cloudHost(u)) then strip(u)
      else EffectiveBackendApiUrl(None, parse, strip, cloudHost, env, fallback)
    ensures EffectiveBackendApiUrl(None, parse, strip, cloudHost, env, fallback) ==
      match env case Some(base) => strip(base) case None => fallback
  {
    hide UseOverride, ForBackend;
    TrimOf(pre, u, post, Handoff.IsWhitespace);
    UseOverrideIff(parse(u), cloudHost(u));
  }
}
