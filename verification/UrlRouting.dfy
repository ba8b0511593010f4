/** URL routing of rest-server.c: splitting paths, matching patterns segment by segment while pushing
    parameters on one shared list, and dispatching to the first pattern that matches. */
module UrlRouting {
  import opened Collections

  // ---------------------------------------------------------------- splitting

  function SkipSlashes(s: string): (r: string)
    ensures |r| <= |s|
    ensures r != "" ==> r[0] != '/'
    ensures s != "" && s[0] == '/' ==> |r| < |s|
  {
    if s != "" && s[0] == '/' then SkipSlashes(s[1..]) else s
  }

  function Segments(s: string): (r: seq<string>)
    ensures r != []
    decreases |s|
  {
    var t := SkipSlashes(s);
    var k := ToSlash(t);
    if k == |t| then [t] else [t[..k]] + Segments(t[k..])
  }

  /** A path as one writes it: every segment free of slashes, and none empty except the last. */
  predicate Proper(segments: seq<string>) {
    && segments != []
    && forall i :: 0 <= i < |segments| ==> '/' !in segments[i] && (segments[i] == "" ==> i == |segments| - 1)
  }

  function Join(segments: seq<string>): string {
    if segments == [] then "" else "/" + segments[0] + Join(segments[1..])
  }

  lemma {:induction false} SegmentsAreProper(s: string)
    ensures Proper(Segments(s))
    decreases |s|
  {
    var t := SkipSlashes(s);
    var k := ToSlash(t);
    if k < |t| {
      SegmentsAreProper(t[k..]);
      assert Segments(s) == [t[..k]] + Segments(t[k..]);
      assert t[..k] != "";
    } else {
      assert t[..k] == t;
    }
  }

  /** Splitting undoes joining, for every path there is: repeated slashes are what it forgets. */
  lemma {:induction false} SplitUndoesJoin(segments: seq<string>)
    requires Proper(segments)
    ensures Segments(Join(segments)) == segments
  {
    var a, rest := segments[0], Join(segments[1..]);
    var s := "/" + a + rest;
    assert s[1..] == a + rest;
    ToSlashOfSegment(a, rest);
    if |segments| == 1 {
      assert a + rest == a;
      if a != "" {
        assert a[0] in a;
      }
      assert SkipSlashes(s) == SkipSlashes(a) == a;
    } else {
      assert a[0] in a;
      assert SkipSlashes(s) == SkipSlashes(a + rest) == a + rest;
      assert (a + rest)[..|a|] == a && (a + rest)[|a|..] == rest;
      assert segments == [a] + segments[1..];
      SplitUndoesJoin(segments[1..]);
    }
  }

  /** The loop that skips slashes from offset `p`. */
  method PastSlashes(url: string, p: nat) returns (q: nat)
    requires p <= |url|
    ensures p <= q <= |url| && url[q..] == SkipSlashes(url[p..])
  {
    q := p;
    while q < |url| && url[q] == '/'
      invariant p <= q <= |url|
      invariant SkipSlashes(url[q..]) == SkipSlashes(url[p..])
    {
      assert url[q..][1..] == url[q + 1..];
      q := q + 1;
    }
  }

  /** strchr (url + p, '/'), the end of the text standing for NULL. */
  method NextSlash(url: string, p: nat) returns (q: nat)
    requires p <= |url|
    ensures p <= q <= |url| && q - p == ToSlash(url[p..])
  {
    q := p;
    while q < |url| && url[q] != '/'
      invariant p <= q <= |url|
      invariant ToSlash(url[p..]) == q - p + ToSlash(url[q..])
    {
      assert url[q..][1..] == url[q + 1..];
      q := q + 1;
    }
  }

  /** processUrl, with `p` an offset into the URL. */
  method ProcessUrl(url: string) returns (result: seq<string>)
    ensures result == Segments(url)
  {
    hide SkipSlashes, ToSlash;
    result := [];
    var p := 0;
    var more := true;
    while more
      invariant 0 <= p <= |url|
      invariant more ==> result + Segments(url[p..]) == Segments(url)
      invariant !more ==> result == Segments(url)
      decreases more, |url| - p
    {
      var q := PastSlashes(url, p);
      var nextp := NextSlash(url, q);
      assert url[q..][..nextp - q] == url[q..nextp] && url[q..][nextp - q..] == url[nextp..];
      if nextp < |url| {
        assert Segments(url[p..]) == [url[q..nextp]] + Segments(url[nextp..]);
        Assoc(result, [url[q..nextp]], Segments(url[nextp..]));
      } else {
        assert url[q..nextp] == url[q..];
      }
      result := result + [url[q..nextp]];
      more, p := nextp < |url|, nextp;
    }
  }

  // ---------------------------------------------------------------- matching

  predicate Wildcard(segment: string) {
    |segment| >= 3 && segment[0] == '{' && segment[|segment| - 1] == '}'
  }

  function WildcardName(segment: string): string
    requires Wildcard(segment)
  {
    segment[1..|segment| - 1]
  }

  predicate Matches(pattern: seq<string>, url: seq<string>) {
    |pattern| == |url| && forall k :: 0 <= k < |url| ==> pattern[k] == url[k] || Wildcard(pattern[k])
  }

  datatype Binding = Binding(name: string, value: string)

  /** devsdk_nvpairs_value. */
  function Lookup(params: seq<Binding>, name: string): Option<string> {
    if params == [] then None
    else if params[0].name == name then Some(params[0].value)
    else Lookup(params[1..], name)
  }

  method NameValue(params: seq<Binding>, name: string) returns (value: Option<string>)
    ensures value == Lookup(params, name)
  {
    var i := 0;
    while i < |params|
      invariant 0 <= i <= |params|
      invariant Lookup(params, name) == Lookup(params[i..], name)
    {
      if params[i].name == name {
        return Some(params[i].value);
      }
      assert params[i..][1..] == params[i + 1..];
      i := i + 1;
    }
    return None;
  }

  /** What trying a pattern leaves on the list, whether or not it goes on to match. */
  function Pushed(pattern: seq<string>, url: seq<string>, params: seq<Binding>): seq<Binding> {
    if pattern == [] || url == [] then params
    else if pattern[0] == url[0] then Pushed(pattern[1..], url[1..], params)
    else if Wildcard(pattern[0]) then
      Pushed(pattern[1..], url[1..], [Binding(WildcardName(pattern[0]), url[0])] + params)
    else params
  }

  function Tried(patterns: seq<seq<string>>, url: seq<string>): seq<Binding> {
    if patterns == [] then []
    else Pushed(patterns[|patterns| - 1], url, Tried(patterns[..|patterns| - 1], url))
  }

  /** Position `k` of the pattern gives `name` the URL's segment: a wildcard whose own text is not
      what the URL has there. */
  predicate Binds(pattern: seq<string>, url: seq<string>, k: int, name: string) {
    && 0 <= k < |pattern| && k < |url|
    && pattern[k] != url[k]
    && Wildcard(pattern[k])
    && WildcardName(pattern[k]) == name
  }

  /** Where the pattern binds `name`, the last such position decides; where it does not, whatever was
      on the list before shows through. */
  lemma {:induction false} MatchedLookup(pattern: seq<string>, url: seq<string>, params: seq<Binding>, name: string)
    requires Matches(pattern, url)
    ensures forall k :: Binds(pattern, url, k, name) && (forall j :: k < j ==> !Binds(pattern, url, j, name)) ==>
              Lookup(Pushed(pattern, url, params), name) == Some(url[k])
    ensures (forall k :: !Binds(pattern, url, k, name)) ==>
              Lookup(Pushed(pattern, url, params), name) == Lookup(params, name)
  {
    hide Wildcard, WildcardName;
    if pattern != [] {
      var p, u := pattern[1..], url[1..];
      var params' := if pattern[0] == url[0] then params else [Binding(WildcardName(pattern[0]), url[0])] + params;
      assert forall k :: Binds(p, u, k, name) ==> Binds(pattern, url, k + 1, name);
      assert forall k :: k > 0 && Binds(pattern, url, k, name) ==> Binds(p, u, k - 1, name);
      MatchedLookup(p, u, params', name);
      if pattern[0] != url[0] {
        AfterFirst(params'[0], params);
      }
      assert Pushed(pattern, url, params) == Pushed(p, u, params');
      forall k | Binds(pattern, url, k, name) && forall j :: k < j ==> !Binds(pattern, url, j, name)
        ensures Lookup(Pushed(pattern, url, params), name) == Some(url[k])
      {
        if k == 0 {
          assert forall j :: !Binds(p, u, j, name);
        } else {
          assert Binds(p, u, k - 1, name) && u[k - 1] == url[k];
        }
      }
    }
  }

  predicate DistinctWildcards(pattern: seq<string>) {
    forall i, j :: 0 <= i < j < |pattern| && Wildcard(pattern[i]) && Wildcard(pattern[j]) ==>
      WildcardName(pattern[i]) != WildcardName(pattern[j])
  }

  /** Under distinct wildcard names, exactly what each wildcard reads: the URL's segment, unless the
      segment is literally the wildcard's text, when a binding left by an earlier pattern shows. */
  lemma WildcardLookup(pattern: seq<string>, url: seq<string>, stale: seq<Binding>, k: nat)
    requires Matches(pattern, url) && DistinctWildcards(pattern)
    requires k < |pattern| && Wildcard(pattern[k])
    ensures Lookup(Pushed(pattern, url, stale), WildcardName(pattern[k]))
            == if url[k] != pattern[k] then Some(url[k]) else Lookup(stale, WildcardName(pattern[k]))
  {
    var name := WildcardName(pattern[k]);
    forall j | Binds(pattern, url, j, name)
      ensures j == k
    {
    }
    MatchedLookup(pattern, url, stale, name);
    if url[k] != pattern[k] {
      assert Binds(pattern, url, k, name);
    }
  }

  /** No binding spells its own wildcard: the text was compared before it was bound. */
  ghost predicate NoneSpelled(params: seq<Binding>) {
    forall i :: 0 <= i < |params| ==> params[i].value != "{" + params[i].name + "}"
  }

  lemma WildcardText(segment: string)
    requires Wildcard(segment)
    ensures segment == "{" + WildcardName(segment) + "}"
  {
  }

  lemma {:induction false} PushedNoneSpelled(pattern: seq<string>, url: seq<string>, params: seq<Binding>)
    requires NoneSpelled(params)
    ensures NoneSpelled(Pushed(pattern, url, params))
    decreases |pattern|
  {
    hide WildcardName, Wildcard;
    if pattern != [] && url != [] {
      if pattern[0] == url[0] {
        PushedNoneSpelled(pattern[1..], url[1..], params);
      } else if Wildcard(pattern[0]) {
        WildcardText(pattern[0]);
        PushedNoneSpelled(pattern[1..], url[1..], [Binding(WildcardName(pattern[0]), url[0])] + params);
      }
    }
  }

  lemma {:induction false} TriedNoneSpelled(patterns: seq<seq<string>>, url: seq<string>)
    ensures NoneSpelled(Tried(patterns, url))
  {
    if patterns != [] {
      var last := |patterns| - 1;
      TriedNoneSpelled(patterns[..last], url);
      PushedNoneSpelled(patterns[last], url, Tried(patterns[..last], url));
    }
  }

  lemma {:induction false} LookupNotSpelled(params: seq<Binding>, name: string)
    requires NoneSpelled(params)
    ensures Lookup(params, name) != Some("{" + name + "}")
  {
    if params != [] && params[0].name != name {
      LookupNotSpelled(params[1..], name);
    }
  }

  /** Whatever patterns were tried before, a wildcard reads the URL's own segment if and only if that
      segment is not the wildcard's text. */
  lemma WildcardReadsSegmentIff(earlier: seq<seq<string>>, pattern: seq<string>, url: seq<string>, k: nat)
    requires Matches(pattern, url) && DistinctWildcards(pattern)
    requires k < |pattern| && Wildcard(pattern[k])
    ensures Lookup(Pushed(pattern, url, Tried(earlier, url)), WildcardName(pattern[k])) == Some(url[k])
            <==> url[k] != pattern[k]
  {
    hide WildcardName, Wildcard;
    WildcardLookup(pattern, url, Tried(earlier, url), k);
    TriedNoneSpelled(earlier, url);
    LookupNotSpelled(Tried(earlier, url), WildcardName(pattern[k]));
    WildcardText(pattern[k]);
  }

  function Braced(name: string): (r: string)
    requires name != ""
    ensures Wildcard(r) && WildcardName(r) == name
  {
    "{" + name + "}"
  }

  /** URLs that spell a wildcard are misread: the handler of `{a}/{b}` finds for `a` the value that an
      earlier, longer pattern left before it failed. */
  lemma LiteralWildcardMisread(a: string, b: string, v: string)
    requires a != "" && b != "" && a != b
    requires v != Braced(a) && v != Braced(b)
    ensures var earlier := [Braced(b), Braced(a), "x"];
            var pattern, url := [Braced(a), Braced(b)], [Braced(a), v];
            && !Matches(earlier, url) && Matches(pattern, url) && DistinctWildcards(pattern)
            && Lookup(Tried([earlier, pattern], url), a) == Some(v)
  {
    hide Braced, Wildcard, WildcardName;
    var earlier, pattern, url := [Braced(b), Braced(a), "x"], [Braced(a), Braced(b)], [Braced(a), v];
    var first := [Binding(b, Braced(a))];
    var left := [Binding(a, v)] + first;
    assert earlier[1..] == [Braced(a), "x"] && earlier[1..][1..] == ["x"] && url[1..] == [v] && url[1..][1..] == [];
    assert Pushed(earlier[1..], url[1..], first) == left;
    assert Pushed(earlier, url, []) == left by {
      assert first + [] == first;
    }
    assert [earlier, pattern][..1] == [earlier];
    assert Tried([earlier], url) == left;
    assert Pushed(pattern, url, left) == [Binding(b, v)] + left by {
      assert pattern[1..] == [Braced(b)] && pattern[1..][1..] == [];
      assert Pushed(pattern[1..], url[1..], left) == [Binding(b, v)] + left;
    }
    assert ([Binding(b, v)] + left)[1..] == left;
  }

  /** match_url_pattern. */
  method MatchUrlPattern(pattern: seq<string>, url: seq<string>, params: seq<Binding>)
    returns (result: bool, params': seq<Binding>)
    ensures result == Matches(pattern, url)
    ensures params' == Pushed(pattern, url, params)
  {
    result, params' := true, params;
    var i := 0;
    while result && i < |pattern| && i < |url|
      invariant 0 <= i <= |pattern| && i <= |url|
      invariant result ==> forall k :: 0 <= k < i ==> pattern[k] == url[k] || Wildcard(pattern[k])
      invariant result ==> Pushed(pattern[i..], url[i..], params') == Pushed(pattern, url, params)
      invariant !result ==> !Matches(pattern, url) && params' == Pushed(pattern, url, params)
    {
      assert pattern[i..][1..] == pattern[i + 1..] && url[i..][1..] == url[i + 1..];
      if pattern[i] != url[i] {
        if Wildcard(pattern[i]) {
          params' := [Binding(WildcardName(pattern[i]), url[i])] + params';
        } else {
          result := false;
        }
      }
      i := i + 1;
    }
    result := result && i == |pattern| && i == |url|;
  }

  // ---------------------------------------------------------------- dispatch

  datatype Method = Get | Post | Put | Patch | Delete | Options | Unknown

  datatype Handler = Handler(url: seq<string>, methods: set<Method>, context: nat)

  datatype Outcome =
    | Handled(context: nat, params: seq<Binding>) | MethodNotAllowed | NotFound
    | Forbidden | Preflight | Listed(text: string)

  /** The cross-origin configuration, with its verdicts on the request at hand. */
  datatype Cors = Cors(enabled: bool, preflightOk: bool, requestOk: bool)

  function Patterns(handlers: seq<Handler>): (r: seq<seq<string>>)
    ensures |r| == |handlers|
  {
    seq(|handlers|, i requires 0 <= i < |handlers| => handlers[i].url)
  }

  /** The first handler whose pattern matches decides, and it alone: no later handler gets the request
      even if the first does not serve the method. */
  ghost predicate Dispatched(handlers: seq<Handler>, url: seq<string>, m: Method, o: Outcome) {
    if exists h :: First(handlers, url, h) then
      exists h ::
        && First(handlers, url, h)
        && o == if m in handlers[h].methods then Handled(handlers[h].context, Tried(Patterns(handlers)[..h + 1], url))
                else MethodNotAllowed
    else o == NotFound
  }

  /** The text that lists the handlers, one per line, segments joined by slashes. */
  function Listing(handlers: seq<Handler>): string {
    if handlers == [] then "" else Line(handlers[0].url) + Listing(handlers[1..])
  }

  function Line(url: seq<string>): string {
    if url == [] then "" else url[0] + (if |url| > 1 then "/" else "\n") + Line(url[1..])
  }

  predicate First(handlers: seq<Handler>, url: seq<string>, h: int) {
    0 <= h < |handlers| && Matches(handlers[h].url, url) && forall i :: 0 <= i < h ==> !Matches(handlers[i].url, url)
  }

  class Server {
    var handlers: seq<Handler>

    constructor ()
      ensures handlers == []
    {
      handlers := [];
    }

    /** edgex_rest_server_register_handler: appended, so earlier registrations keep precedence. */
    method RegisterHandler(url: string, methods: set<Method>, context: nat)
      modifies this
      ensures handlers == old(handlers) + [Handler(Segments(url), methods, context)]
    {
      var segments := ProcessUrl(url);
      handlers := handlers + [Handler(segments, methods, context)];
    }

    /** The matching loop of http_handler and the method test after it. */
    method Dispatch(url: string, m: Method) returns (o: Outcome)
      ensures Dispatched(handlers, Segments(url), m, o)
      ensures o == NotFound <==> forall i :: 0 <= i < |handlers| ==> !Matches(handlers[i].url, Segments(url))
      ensures o == MethodNotAllowed <==>
              exists i :: First(handlers, Segments(url), i) && m !in handlers[i].methods
    {
      var elems := ProcessUrl(url);
      var params: seq<Binding> := [];
      ghost var patterns := Patterns(handlers);
      var h := 0;
      var found := false;
      while h < |handlers| && !found
        invariant 0 <= h <= |handlers|
        invariant forall i :: 0 <= i < h ==> !Matches(handlers[i].url, elems)
        invariant !found ==> params == Tried(patterns[..h], elems)
        invariant found ==> First(handlers, elems, h) && params == Tried(patterns[..h + 1], elems)
        decreases !found, |handlers| - h
      {
        assert patterns[..h + 1][..h] == patterns[..h];
        found, params := MatchUrlPattern(handlers[h].url, elems, params);
        if !found {
          h := h + 1;
        }
      }
      if found {
        o := if m in handlers[h].methods then Handled(handlers[h].context, params) else MethodNotAllowed;
      } else {
        o := NotFound;
      }
    }

    /** The two nested loops of the listing: the size computed first is exactly that of the text. */
    method ListHandlers() returns (size: nat, text: string)
      ensures text == Listing(handlers) && size == |text|
    {
      size, text := 0, "";
      var h := 0;
      while h < |handlers|
        invariant 0 <= h <= |handlers| && size + |Listing(handlers[h..])| == |Listing(handlers)|
      {
        var n := LineSize(handlers[h].url);
        assert handlers[h..][1..] == handlers[h + 1..];
        size := size + n;
        h := h + 1;
      }
      h := 0;
      while h < |handlers|
        invariant 0 <= h <= |handlers| && text + Listing(handlers[h..]) == Listing(handlers)
      {
        assert handlers[h..][1..] == handlers[h + 1..];
        Assoc(text, Line(handlers[h].url), Listing(handlers[h + 1..]));
        text := AppendLine(text, handlers[h].url);
        h := h + 1;
      }
    }

    method LineSize(url: seq<string>) returns (n: nat)
      ensures n == |Line(url)|
    {
      n := 0;
      var i := 0;
      while i < |url|
        invariant 0 <= i <= |url| && n + |Line(url[i..])| == |Line(url)|
      {
        assert url[i..][1..] == url[i + 1..];
        n := n + |url[i]| + 1;
        i := i + 1;
      }
    }

    method AppendLine(buff: string, url: seq<string>) returns (text: string)
      ensures text == buff + Line(url)
    {
      text := buff;
      var i := 0;
      while i < |url|
        invariant 0 <= i <= |url| && text + Line(url[i..]) == buff + Line(url)
      {
        assert url[i..][1..] == url[i + 1..];
        var sep := if i + 1 < |url| then "/" else "\n";
        Assoc(text, url[i] + sep, Line(url[i + 1..]));
        text := text + (url[i] + sep);
        i := i + 1;
      }
    }

    /** http_handler, once a request is complete: pre-flight, the listing at the root, dispatch, and a
        refusal of what a cross-origin check does not let through to a handler. */
    method HandleRequest(url: string, m: Method, cors: Cors) returns (o: Outcome)
      ensures m == Options && cors.enabled ==> o == if cors.preflightOk then Preflight else MethodNotAllowed
      ensures (m != Options || !cors.enabled) && (url == "" || url == "/") ==>
                o == if m == Get then Listed(Listing(handlers)) else MethodNotAllowed
      ensures (m != Options || !cors.enabled) && url != "" && url != "/" ==>
                exists d ::
                  && Dispatched(handlers, Segments(url), m, d)
                  && o == if d.Handled? && cors.enabled && !cors.requestOk then Forbidden else d
    {
      hide Dispatched;
      if m == Options && cors.enabled {
        o := if cors.preflightOk then Preflight else MethodNotAllowed;
      } else if url == "" || url == "/" {
        if m == Get {
          var size, text := ListHandlers();
          o := Listed(text);
        } else {
          o := MethodNotAllowed;
        }
      } else {
        o := Dispatch(url, m);
        if o.Handled? && cors.enabled && !cors.requestOk {
          o := Forbidden;
        }
      }
    }
  }

  /** What a handler sees: it was registered under the first matching pattern, and each of its
      wildcards reads the URL's segment if and only if the URL does not spell the wildcard itself. In
      that case it reads what earlier patterns left under the name: nothing, for the first handler. */
  lemma HandlerSeesItsSegments(handlers: seq<Handler>, url: seq<string>, m: Method, o: Outcome, h: nat, k: nat)
    requires Dispatched(handlers, url, m, o) && o.Handled?
    requires First(handlers, url, h) && DistinctWildcards(handlers[h].url)
    requires k < |url| && Wildcard(handlers[h].url[k])
    ensures o.context == handlers[h].context && m in handlers[h].methods
    ensures Lookup(o.params, WildcardName(handlers[h].url[k])) == Some(url[k]) <==> url[k] != handlers[h].url[k]
    ensures url[k] == handlers[h].url[k] ==>
              Lookup(o.params, WildcardName(handlers[h].url[k]))
              == Lookup(Tried(Patterns(handlers[..h]), url), WildcardName(handlers[h].url[k]))
    ensures url[k] == handlers[h].url[k] && h == 0 ==> Lookup(o.params, WildcardName(handlers[h].url[k])) == None
  {
    assert |url| == |handlers[h].url| && Matches(handlers[h].url, url);
    hide WildcardName, Wildcard, Matches, Pushed, Lookup, DistinctWildcards;
    FirstDecides(handlers, url, m, o, h);
    hide Dispatched, First, Patterns;
    var earlier := Patterns(handlers[..h]);
    WildcardLookup(handlers[h].url, url, Tried(earlier, url), k);
    WildcardReadsSegmentIff(earlier, handlers[h].url, url, k);
  }

  lemma FirstDecides(handlers: seq<Handler>, url: seq<string>, m: Method, o: Outcome, h: nat)
    requires Dispatched(handlers, url, m, o) && o.Handled? && First(handlers, url, h)
    ensures o.context == handlers[h].context && m in handlers[h].methods
    ensures o.params == Pushed(handlers[h].url, url, Tried(Patterns(handlers[..h]), url))
  {
    hide Matches, Pushed;
    var patterns := Patterns(handlers);
    assert patterns[..h + 1][..h] == patterns[..h] == Patterns(handlers[..h]);
  }

  /** Registering more handlers never changes where a request that was served before goes. */
  lemma LaterHandlersDoNotCapture(handlers: seq<Handler>, more: seq<Handler>, url: seq<string>, m: Method, o: Outcome)
    requires Dispatched(handlers, url, m, o) && o != NotFound
    ensures Dispatched(handlers + more, url, m, o)
  {
    var h :| First(handlers, url, h)
             && o == if m in handlers[h].methods
                     then Handled(handlers[h].context, Tried(Patterns(handlers)[..h + 1], url))
                     else MethodNotAllowed;
    assert Patterns(handlers + more)[..h + 1] == Patterns(handlers)[..h + 1];
    assert First(handlers + more, url, h);
  }

  // ---------------------------------------------------------------- reading the listing

  /** The text between separators. */
  function Split(s: string, c: char): (r: seq<string>)
    ensures r != []
    decreases |s|
  {
    var k := FirstOf(s, c);
    if k == |s| then [s] else [s[..k]] + Split(s[k + 1..], c)
  }

  function FirstOf(s: string, c: char): (k: nat)
    ensures k <= |s| && c !in s[..k] && (k < |s| ==> s[k] == c)
  {
    if s == "" || s[0] == c then 0 else 1 + FirstOf(s[1..], c)
  }

  lemma {:induction false} FirstOfPart(a: string, c: char, rest: string)
    requires c !in a && (rest == "" || rest[0] == c)
    ensures FirstOf(a + rest, c) == |a|
  {
    if a == "" {
      assert a + rest == rest;
    } else {
      assert (a + rest)[0] == a[0] && a[0] in a;
      assert (a + rest)[1..] == a[1..] + rest;
      FirstOfPart(a[1..], c, rest);
    }
  }

  lemma SplitPart(a: string, c: char, rest: string)
    requires c !in a
    ensures Split(a, c) == [a] && Split(a + [c] + rest, c) == [a] + Split(rest, c)
  {
    hide FirstOf;
    FirstOfPart(a, c, "");
    assert a + "" == a;
    FirstOfPart(a, c, [c] + rest);
    Assoc(a, [c], rest);
    AfterPrefix(a, [c] + rest);
    var s := a + [c] + rest;
    assert s[|a| + 1..] == rest;
  }

  function Slashed(url: seq<string>): string
    requires url != []
  {
    if |url| == 1 then url[0] else url[0] + ['/'] + Slashed(url[1..])
  }

  predicate Printable(url: seq<string>) {
    url != [] && forall i :: 0 <= i < |url| ==> '/' !in url[i] && '\n' !in url[i]
  }

  lemma {:induction false} LineIsSlashed(url: seq<string>)
    requires Printable(url)
    ensures Line(url) == Slashed(url) + ['\n'] && '\n' !in Slashed(url) && Split(Slashed(url), '/') == url
  {
    hide Split;
    if |url| == 1 {
      assert Line(url[1..]) == "";
      SplitPart(url[0], '/', "");
    } else {
      LineIsSlashed(url[1..]);
      Assoc(url[0] + ['/'], Slashed(url[1..]), ['\n']);
      SplitPart(url[0], '/', Slashed(url[1..]));
      assert url == [url[0]] + url[1..];
    }
  }

  /** The listing says what is registered: its lines, split at slashes, are the handlers' segments, in
      order. */
  lemma {:induction false} ListingReads(handlers: seq<Handler>)
    requires forall i :: 0 <= i < |handlers| ==> Printable(handlers[i].url)
    ensures var lines := Split(Listing(handlers), '\n');
            && |lines| == |handlers| + 1 && lines[|handlers|] == ""
            && forall i :: 0 <= i < |handlers| ==> Split(lines[i], '/') == handlers[i].url
  {
    hide Split, Printable, Line;
    if handlers == [] {
      SplitPart("", '\n', "");
    } else {
      var url := handlers[0].url;
      LineIsSlashed(url);
      ListingReads(handlers[1..]);
      SplitPart(Slashed(url), '\n', Listing(handlers[1..]));
      var lines := Split(Listing(handlers), '\n');
      assert lines[0] == Slashed(url);
      forall i | 1 <= i < |handlers| ensures Split(lines[i], '/') == handlers[i].url {
        assert lines[i] == Split(Listing(handlers[1..]), '\n')[i - 1] && handlers[i] == handlers[1..][i - 1];
      }
    }
  }

  /** Runs of slashes count as one. */
  lemma {:induction false} ExtraSlashIgnored(a: string, b: string)
    ensures Segments(a + "//" + b) == Segments(a + "/" + b)
    decreases |a|
  {
    var s, t := a + "//" + b, a + "/" + b;
    if a == "" {
      assert s[1..] == t;
    } else if a[0] == '/' {
      assert s[1..] == a[1..] + "//" + b && t[1..] == a[1..] + "/" + b;
      ExtraSlashIgnored(a[1..], b);
      SegmentsAfterSlash(s);
      SegmentsAfterSlash(t);
    } else {
      var k := ToSlash(a);
      var x, y := a[..k], a[k..];
      assert s == x + (y + "//" + b) && t == x + (y + "/" + b);
      ToSlashOfSegment(x, y + "//" + b);
      ToSlashOfSegment(x, y + "/" + b);
      assert k > 0;
      ExtraSlashIgnored(y, b);
      AfterPrefix(x, y + "//" + b);
      AfterPrefix(x, y + "/" + b);
      assert SkipSlashes(s) == s && SkipSlashes(t) == t;
    }
  }

  lemma SegmentsAfterSlash(s: string)
    requires s != "" && s[0] == '/'
    ensures Segments(s) == Segments(s[1..])
  {
  }

  /** A wildcard is a name in braces, and names it. */
  lemma WildcardIff(segment: string)
    ensures Wildcard(segment) <==> exists name: string :: name != "" && segment == "{" + name + "}"
    ensures forall name: string :: name != "" && segment == "{" + name + "}" ==> WildcardName(segment) == name
  {
    if Wildcard(segment) {
      WildcardText(segment);
    }
  }

  /** A pattern matches what has as many segments, each its own or in the place of a wildcard. */
  lemma MatchesIff(pattern: seq<string>, url: seq<string>)
    ensures Matches(pattern, url) <==>
            && |pattern| == |url|
            && forall k :: 0 <= k < |url| ==>
                 pattern[k] == url[k] || exists name: string :: name != "" && pattern[k] == "{" + name + "}"
  {
    hide Wildcard;
    forall k | 0 <= k < |pattern|
      ensures Wildcard(pattern[k]) <==> exists name: string :: name != "" && pattern[k] == "{" + name + "}"
    {
      WildcardIff(pattern[k]);
    }
  }
}
