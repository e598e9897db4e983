/**
  URL validation and normalisation (page_analyzer/process_url.py).

  `normalize_url` rebuilds `scheme://hostname` from the result of
  `urllib.parse.urlparse`; the part of `urlparse` it relies on is modelled
  here as a simplified `UrlSplit` together with the `hostname` property of
  its result. `validate_url` builds an error dictionary in three successive
  steps; the generic syntax check it calls (`validators.url`) is a parameter.
 */
module ProcessUrl {
  import opened Wrappers

  // -------------------------------------------------------------------------
  // Characters and strings
  // -------------------------------------------------------------------------

  predicate IsAsciiLetter(c: char) {
    'a' <= c <= 'z' || 'A' <= c <= 'Z'
  }

  /** The characters `urllib.parse` accepts in a scheme. */
  predicate IsSchemeChar(c: char) {
    IsAsciiLetter(c) || '0' <= c <= '9' || c == '+' || c == '-' || c == '.'
  }

  /** Every character of `s` is a scheme character. */
  predicate AllSchemeChars(s: string) {
    s == [] || (IsSchemeChar(s[0]) && AllSchemeChars(s[1..]))
  }

  lemma {:induction false} AllSchemeCharsAt(s: string)
    ensures AllSchemeChars(s) <==> forall i :: 0 <= i < |s| ==> IsSchemeChar(s[i])
  {
    if s != [] {
      AllSchemeCharsAt(s[1..]);
      assert forall i :: 0 < i < |s| ==> s[i] == s[1..][i - 1];
    }
  }

  /** No character of `s` is in `ds`. */
  predicate NoneOf(s: string, ds: set<char>) {
    s == [] || (s[0] !in ds && NoneOf(s[1..], ds))
  }

  lemma {:induction false} NoneOfAt(s: string, ds: set<char>)
    ensures NoneOf(s, ds) <==> forall i :: 0 <= i < |s| ==> s[i] !in ds
  {
    if s != [] {
      NoneOfAt(s[1..], ds);
      assert forall i :: 0 < i < |s| ==> s[i] == s[1..][i - 1];
    }
  }

  /** A string containing none of the characters of `ds` avoids `ds`. */
  lemma Absent(s: string, ds: set<char>)
    requires forall c :: c in ds ==> c !in s
    ensures NoneOf(s, ds)
  {
    NoneOfAt(s, ds);
    forall i | 0 <= i < |s| ensures s[i] !in ds {
      assert s[i] in s;
    }
  }

  lemma NoneOfSlice(s: string, ds: set<char>, i: nat, j: nat)
    requires NoneOf(s, ds) && i <= j <= |s|
    ensures NoneOf(s[i..j], ds)
  {
    NoneOfAt(s, ds);
    NoneOfAt(s[i..j], ds);
    assert forall k :: 0 <= k < j - i ==> s[i..j][k] == s[i + k];
  }

  lemma NoneOfUnion(s: string, ds: set<char>, es: set<char>)
    requires NoneOf(s, ds) && NoneOf(s, es)
    ensures NoneOf(s, ds + es)
  {
    NoneOfAt(s, ds);
    NoneOfAt(s, es);
    NoneOfAt(s, ds + es);
  }

  lemma NoneOfHas(s: string, ds: set<char>, c: char)
    requires NoneOf(s, ds) && c in ds
    ensures c !in s
  {
    NoneOfAt(s, ds);
  }

  /** Avoiding a set of characters avoids each of its subsets. */
  lemma NoneOfSubset(s: string, ds: set<char>, es: set<char>)
    requires NoneOf(s, ds) && es <= ds
    ensures NoneOf(s, es)
  {
    NoneOfAt(s, ds);
    NoneOfAt(s, es);
  }

  /** The characters that end a network location. */
  const NetlocDelimiters: set<char> := {'/', '?', '#'}

  /**
    The characters that introduce a path, query, fragment, user-info or port;
    none of them can occur in a normalised name after its "://".
   */
  const ComponentDelimiters: set<char> := {'/', '?', '#', '@', ':'}

  function LowerChar(c: char): char {
    if 'A' <= c <= 'Z' then (c as int - 'A' as int + 'a' as int) as char else c
  }

  /** ASCII lower-casing; every other character is kept. */
  function Lower(s: string): (r: string)
    ensures |r| == |s|
  {
    if s == [] then [] else [LowerChar(s[0])] + Lower(s[1..])
  }

  /** Lower-casing works character by character. */
  lemma {:induction false} LowerAt(s: string)
    ensures forall i {:trigger Lower(s)[i]} :: 0 <= i < |s| ==> Lower(s)[i] == LowerChar(s[i])
  {
    if s != [] {
      LowerAt(s[1..]);
      assert forall i :: 0 < i < |s| ==> Lower(s)[i] == Lower(s[1..])[i - 1];
    }
  }

  /** `s` holds no upper-case ASCII letter. */
  predicate IsLower(s: string) {
    forall i :: 0 <= i < |s| ==> !('A' <= s[i] <= 'Z')
  }

  lemma LowerIsLower(s: string)
    ensures IsLower(Lower(s))
  {
    LowerAt(s);
  }

  /** Lower-casing a lower-case string changes nothing. */
  lemma LowerOfLower(s: string)
    requires IsLower(s)
    ensures Lower(s) == s
  {
    LowerAt(s);
  }

  /** Lower-casing changes only upper-case letters, so it keeps `s` clear of any punctuation in `ds`. */
  lemma LowerKeepsNoneOf(s: string, ds: set<char>)
    requires forall c :: c in ds ==> !IsAsciiLetter(c)
    requires NoneOf(s, ds)
    ensures NoneOf(Lower(s), ds)
  {
    LowerAt(s);
    NoneOfAt(s, ds);
    NoneOfAt(Lower(s), ds);
    forall i | 0 <= i < |s| ensures Lower(s)[i] !in ds {
      assert IsAsciiLetter(Lower(s)[i]) || Lower(s)[i] == s[i];
    }
  }

  /** Index of the first character of `s` in `ds`, or `|s|` when there is none. */
  function FirstOfAny(s: string, ds: set<char>): (k: nat)
    ensures k <= |s|
  {
    if s == [] || s[0] in ds then 0 else 1 + FirstOfAny(s[1..], ds)
  }

  /** No character before the index is in `ds`, and the one at the index, if any, is. */
  lemma {:induction false} FirstOfAnyFacts(s: string, ds: set<char>)
    ensures forall j :: 0 <= j < FirstOfAny(s, ds) ==> s[j] !in ds
    ensures FirstOfAny(s, ds) < |s| ==> s[FirstOfAny(s, ds)] in ds
  {
    if s != [] && s[0] !in ds {
      FirstOfAnyFacts(s[1..], ds);
      assert forall j :: 0 < j < |s| ==> s[j] == s[1..][j - 1];
    }
  }

  /** `FirstOfAny` is the only index with those two properties. */
  lemma {:induction false} FirstOfAnyIs(s: string, ds: set<char>, k: nat)
    requires k <= |s| && (k < |s| ==> s[k] in ds)
    requires forall j :: 0 <= j < k ==> s[j] !in ds
    ensures FirstOfAny(s, ds) == k
  {
    if k > 0 {
      assert s[0] !in ds;
      assert forall j :: 0 <= j < k - 1 ==> s[1..][j] == s[j + 1];
      FirstOfAnyIs(s[1..], ds, k - 1);
    }
  }

  /** The result of Python's `str.partition`. */
  datatype Parts = Parts(before: string, found: bool, after: string)

  /** `s.partition(c)`: split at the first `c`. */
  function Partition(s: string, c: char): Parts {
    var k := FirstOfAny(s, {c});
    if k < |s| then Parts(s[..k], true, s[k + 1..]) else Parts(s, false, "")
  }

  /**
    The part before the separator has no `c`; when `c` occurs, the three
    parts make up `s`, and otherwise the first part is all of it.
   */
  lemma PartitionFacts(s: string, c: char)
    ensures var p := Partition(s, c);
      && c !in p.before
      && (p.found ==> s == p.before + [c] + p.after)
      && (!p.found ==> p.before == s && p.after == "" && c !in s)
  {
    FirstOfAnyFacts(s, {c});
    var k := FirstOfAny(s, {c});
    if k < |s| {
      assert s == s[..k] + [c] + s[k + 1..];
    }
  }

  /** The last part of `s.rpartition(c)`: what follows the last `c`, or all of `s`. */
  function AfterLast(s: string, c: char): (r: string)
    ensures c !in r
  {
    if s == [] then []
    else if s[|s| - 1] == c then []
    else AfterLast(s[..|s| - 1], c) + [s[|s| - 1]]
  }

  /** What follows the last `c` is a suffix of `s`. */
  lemma {:induction false} AfterLastIsSuffix(s: string, c: char)
    ensures |AfterLast(s, c)| <= |s| && AfterLast(s, c) == s[|s| - |AfterLast(s, c)|..]
  {
    if s != [] && s[|s| - 1] != c {
      var init := s[..|s| - 1];
      AfterLastIsSuffix(init, c);
      var r := AfterLast(s, c);
      assert init[|init| - (|r| - 1)..] + [s[|s| - 1]] == s[|s| - |r|..];
    }
  }

  // -------------------------------------------------------------------------
  // A simplified urlsplit
  // -------------------------------------------------------------------------

  /** The five components `urlsplit` returns. */
  datatype SplitResult = SplitResult(scheme: string, netloc: string, path: string, query: string, fragment: string)

  /**
    The scheme: the text before the first ':' when it starts with an ASCII
    letter and holds only scheme characters; it is lower-cased and removed,
    with the ':', from the rest of the URL.
   */
  function SplitScheme(url: string): (string, string) {
    var i := FirstOfAny(url, {':'});
    if 0 < i < |url| && IsAsciiLetter(url[0]) && AllSchemeChars(url[..i]) then
      (Lower(url[..i]), url[i + 1..])
    else
      ("", url)
  }

  /** The network location: after a leading "//", up to the first '/', '?' or '#'. */
  function SplitNetloc(rest: string): (string, string) {
    if |rest| >= 2 && rest[..2] == "//" then
      var n := FirstOfAny(rest[2..], NetlocDelimiters);
      (rest[2..2 + n], rest[2 + n..])
    else
      ("", rest)
  }

  /** Path, query and fragment: the fragment follows the first '#', the query the first '?' before it. */
  function SplitTail(tail: string): (string, string, string) {
    var frag := Partition(tail, '#');
    var query := Partition(frag.before, '?');
    (query.before, query.after, frag.after)
  }

  /** `urlsplit(url)`: the scheme, the network location, then path, query and fragment. */
  function UrlSplit(url: string): SplitResult {
    var (scheme, rest) := SplitScheme(url);
    var (netloc, tail) := SplitNetloc(rest);
    var (path, query, fragment) := SplitTail(tail);
    SplitResult(scheme, netloc, path, query, fragment)
  }

  /**
    What a split guarantees: a lower-case scheme of scheme characters that
    starts with a letter, a network location without '/', '?' or '#', a path
    without '?' or '#', and a query without '#'.
   */
  lemma UrlSplitFacts(url: string)
    ensures var r := UrlSplit(url);
      && AllSchemeChars(r.scheme) && IsLower(r.scheme)
      && (r.scheme != "" ==> IsAsciiLetter(r.scheme[0]))
      && NoneOf(r.netloc, NetlocDelimiters)
      && '?' !in r.path && '#' !in r.path && '#' !in r.query
  {
    var i := FirstOfAny(url, {':'});
    if 0 < i < |url| && IsAsciiLetter(url[0]) && AllSchemeChars(url[..i]) {
      LowerIsLower(url[..i]);
      LowerKeepsSchemeChars(url[..i]);
    }
    var rest := SplitScheme(url).1;
    if |rest| >= 2 && rest[..2] == "//" {
      var n := FirstOfAny(rest[2..], NetlocDelimiters);
      FirstOfAnyFacts(rest[2..], NetlocDelimiters);
      assert forall j :: 0 <= j < n ==> rest[2..2 + n][j] == rest[2..][j];
      NoneOfAt(rest[2..2 + n], NetlocDelimiters);
    }
    var tail := SplitNetloc(rest).1;
    PartitionFacts(tail, '#');
    PartitionFacts(Partition(tail, '#').before, '?');
  }

  /** Lower-casing keeps scheme characters and a leading letter. */
  lemma LowerKeepsSchemeChars(s: string)
    requires AllSchemeChars(s)
    ensures AllSchemeChars(Lower(s))
    ensures s != "" && IsAsciiLetter(s[0]) ==> IsAsciiLetter(Lower(s)[0])
  {
    LowerAt(s);
    AllSchemeCharsAt(s);
    AllSchemeCharsAt(Lower(s));
  }

  /**
    The `hostname` property of a split result: the text after the last '@'
    and before the next ':', lower-cased; absent when that text is empty.
   */
  function Hostname(netloc: string): Option<string> {
    var host := Partition(AfterLast(netloc, '@'), ':').before;
    if host == "" then None else Some(Lower(host))
  }

  /**
    A hostname is non-empty, lower-case and free of '@' and ':'; taken from
    a network location without '/', '?' and '#', it has none of those either.
   */
  lemma HostnameFacts(netloc: string)
    ensures var h := Hostname(netloc);
      h.Some? ==> (h.value != "" && IsLower(h.value) && '@' !in h.value && ':' !in h.value
      && (NoneOf(netloc, NetlocDelimiters) ==> NoneOf(h.value, ComponentDelimiters)))
  {
    var hostinfo := AfterLast(netloc, '@');
    var host := Partition(hostinfo, ':').before;
    AfterLastIsSuffix(netloc, '@');
    PartitionFacts(hostinfo, ':');
    if host != "" {
      assert host == hostinfo[..|host|];
      assert '@' !in host && ':' !in host;
      Absent(host, {'@', ':'});
      LowerKeepsNoneOf(host, {'@', ':'});
      NoneOfAt(Lower(host), {'@', ':'});
      LowerIsLower(host);
      if NoneOf(netloc, NetlocDelimiters) {
        NoneOfSlice(netloc, NetlocDelimiters, |netloc| - |hostinfo|, |netloc|);
        assert netloc[|netloc| - |hostinfo|..|netloc|] == hostinfo;
        NoneOfSlice(hostinfo, NetlocDelimiters, 0, |host|);
        NoneOfUnion(host, NetlocDelimiters, {'@', ':'});
        assert NetlocDelimiters + {'@', ':'} == ComponentDelimiters;
        LowerKeepsNoneOf(host, ComponentDelimiters);
      }
    }
  }

  /** What the f-string prints for a hostname: the name, or "None" when there is none. */
  function HostnameText(netloc: string): string {
    var h := Hostname(netloc);
    if h.Some? then h.value else "None"
  }

  /** Taken from a network location without '/', '?' and '#', the printed hostname holds no delimiter. */
  lemma HostnameTextFacts(netloc: string)
    requires NoneOf(netloc, NetlocDelimiters)
    ensures NoneOf(HostnameText(netloc), ComponentDelimiters)
  {
    HostnameFacts(netloc);
    NoneOfAt("None", ComponentDelimiters);
  }

  // -------------------------------------------------------------------------
  // normalize_url
  // -------------------------------------------------------------------------

  /**
    `normalize_url`: the scheme, "://" and the hostname of the split URL.
    The scheme holds only scheme characters (so no ':'), and nothing after
    the "://" can start a path, query, fragment, port or user-info.
   */
  function NormalizeUrl(url: string): (r: string)
    ensures var k := |UrlSplit(url).scheme|;
      k + 3 <= |r| && r[..k] == UrlSplit(url).scheme && AllSchemeChars(r[..k])
      && r[k..k + 3] == "://" && NoneOf(r[k + 3..], ComponentDelimiters)
  {
    var parts := UrlSplit(url);
    UrlSplitFacts(url);
    HostnameTextFacts(parts.netloc);
    RejoinShape(parts.scheme, HostnameText(parts.netloc));
    Rejoin(parts.scheme, HostnameText(parts.netloc))
  }

  /** `scheme + "://" + host`, with its three parts located. */
  function Rejoin(scheme: string, host: string): (r: string)
    ensures |scheme| + 3 <= |r| && r[..|scheme|] == scheme && r[|scheme|..|scheme| + 3] == "://"
      && r[|scheme| + 3..] == host
  {
    var r := scheme + "://" + host;
    assert r[..|scheme|] == scheme && r[|scheme| + 3..] == host;
    r
  }

  /** The split of `url` follows from what its first two stages return. */
  lemma UrlSplitOf(url: string, scheme: string, rest: string, netloc: string, tail: string)
    requires SplitScheme(url) == (scheme, rest)
    requires SplitNetloc(rest) == (netloc, tail)
    ensures UrlSplit(url) == SplitResult(scheme, netloc, SplitTail(tail).0, SplitTail(tail).1, SplitTail(tail).2)
  {
  }

  lemma RejoinShape(scheme: string, host: string)
    requires AllSchemeChars(scheme) && NoneOf(host, ComponentDelimiters)
    ensures var r := Rejoin(scheme, host);
      AllSchemeChars(r[..|scheme|]) && NoneOf(r[|scheme| + 3..], ComponentDelimiters)
  {
  }

  lemma NoneOfConcat(a: string, b: string, ds: set<char>)
    requires NoneOf(a, ds) && NoneOf(b, ds)
    ensures NoneOf(a + b, ds)
  {
    NoneOfAt(a, ds);
    NoneOfAt(b, ds);
    NoneOfAt(a + b, ds);
    forall j | 0 <= j < |a + b| ensures (a + b)[j] !in ds {
      if j >= |a| { assert (a + b)[j] == b[j - |a|]; }
    }
  }

  lemma ConcatAssoc(a: string, b: string, c: string)
    ensures a + b + c == a + (b + c)
  {
  }

  /** A scheme followed by ':' is split off and lower-cased. */
  lemma SchemeOfPrefix(s: string, rest: string)
    requires s != "" && IsAsciiLetter(s[0]) && AllSchemeChars(s)
    ensures SplitScheme(s + ":" + rest) == (Lower(s), rest)
  {
    var url := s + ":" + rest;
    AllSchemeCharsAt(s);
    forall j | 0 <= j < |s| ensures url[j] !in {':'} {
      assert url[j] == s[j] && IsSchemeChar(s[j]);
    }
    FirstOfAnyIs(url, {':'}, |s|);
    assert url[..|s|] == s && url[|s| + 1..] == rest;
  }

  /** A URL with a scheme and "//" loses the scheme and its ':' to the split. */
  lemma SchemeOfUrl(s: string, n: string, t: string)
    requires s != "" && IsAsciiLetter(s[0]) && AllSchemeChars(s)
    ensures SplitScheme(s + "://" + n + t) == (Lower(s), "//" + n + t)
  {
    assert s + "://" == s + ":" + "//";
    ConcatAssoc(s, ":", "//");
    ConcatAssoc(s + ":", "//", n);
    ConcatAssoc(s + ":", "//" + n, t);
    SchemeOfPrefix(s, "//" + n + t);
  }

  /**
    After "//", a network location free of '/', '?' and '#' is read whole,
    and the rest (empty, or starting with one of them) is left over.
   */
  lemma NetlocOfPrefix(n: string, t: string)
    requires NoneOf(n, NetlocDelimiters)
    requires t == "" || t[0] in NetlocDelimiters
    ensures SplitNetloc("//" + n + t) == (n, t)
  {
    var rest := "//" + n + t;
    assert rest[..2] == "//" && rest[2..] == n + t;
    NoneOfAt(n, NetlocDelimiters);
    FirstOfAnyIs(n + t, NetlocDelimiters, |n|);
    assert rest[2..2 + |n|] == n && rest[2 + |n|..] == t;
  }

  /** What follows the last `c` of `u + x`, when `u` is empty or ends in `c` and `x` has none. */
  lemma {:induction false} AfterLastOfSuffix(u: string, x: string, c: char)
    requires c !in x
    requires u == [] || u[|u| - 1] == c
    ensures AfterLast(u + x, c) == x
  {
    if x == [] {
      assert u + x == u;
    } else {
      var init := x[..|x| - 1];
      assert (u + x)[..|u + x| - 1] == u + init;
      AfterLastOfSuffix(u, init, c);
      assert init + [x[|x| - 1]] == x;
    }
  }

  /** The part before the first `c` of `h + p`, when `h` has none and `p` is empty or starts with `c`. */
  lemma PartitionOfPrefix(h: string, p: string, c: char)
    requires c !in h
    requires p == [] || p[0] == c
    ensures Partition(h + p, c).before == h
  {
    FirstOfAnyIs(h + p, {c}, |h|);
    assert (h + p)[..|h|] == h;
  }

  /** A lower-case host without '@' or ':' is its own hostname. */
  lemma HostnameOfHost(h: string)
    requires h != "" && IsLower(h) && '@' !in h && ':' !in h
    ensures Hostname(h) == Some(h)
  {
    AfterLastOfSuffix([], h, '@');
    PartitionOfPrefix(h, [], ':');
    assert [] + h == h && h + [] == h;
    LowerOfLower(h);
  }

  /** Normalisation reads only the scheme and the network location. */
  lemma NormalizeOfParts(url: string, scheme: string, rest: string, netloc: string, tail: string)
    requires SplitScheme(url) == (scheme, rest)
    requires SplitNetloc(rest) == (netloc, tail)
    ensures NormalizeUrl(url) == Rejoin(scheme, HostnameText(netloc))
  {
    UrlSplitOf(url, scheme, rest, netloc, tail);
  }

  /** User-info, host and port without '/', '?' or '#' make a network location without them. */
  lemma NetlocOfParts(u: string, h: string, p: string)
    requires NoneOf(u, NetlocDelimiters) && NoneOf(h, ComponentDelimiters) && NoneOf(p, NetlocDelimiters)
    ensures NoneOf(u + h + p, NetlocDelimiters)
  {
    NoneOfSubset(h, ComponentDelimiters, NetlocDelimiters);
    NoneOfConcat(u, h, NetlocDelimiters);
    NoneOfConcat(u + h, p, NetlocDelimiters);
  }

  /**
    A network location made of optional user-info ending in '@', a host and
    an optional port after ':' has that host, lower-cased, as its hostname.
   */
  lemma HostnameOfParts(u: string, h: string, p: string)
    requires u == "" || u[|u| - 1] == '@'
    requires h != "" && '@' !in h && ':' !in h
    requires p == "" || (p[0] == ':' && '@' !in p)
    ensures Hostname(u + h + p) == Some(Lower(h))
  {
    assert u + h + p == u + (h + p);
    AfterLastOfSuffix(u, h + p, '@');
    PartitionOfPrefix(h, p, ':');
  }

  /**
    Normalisation keeps only the scheme and the host, both lower-cased: a
    user-info part ending in '@', a port after ':', and any path, query or
    fragment are dropped.
   */
  lemma NormalizeDropsComponents(s: string, u: string, h: string, p: string, t: string)
    requires s != "" && IsAsciiLetter(s[0]) && AllSchemeChars(s)
    requires u == "" || u[|u| - 1] == '@'
    requires NoneOf(u, NetlocDelimiters)
    requires h != "" && NoneOf(h, ComponentDelimiters)
    requires p == "" || (p[0] == ':' && '@' !in p)
    requires NoneOf(p, NetlocDelimiters)
    requires t == "" || t[0] in NetlocDelimiters
    ensures NormalizeUrl(s + "://" + u + h + p + t) == Lower(s) + "://" + Lower(h)
  {
    var n := u + h + p;
    var rest := "//" + n + t;
    var url := s + "://" + u + h + p + t;
    assert SplitScheme(url) == (Lower(s), rest) by {
      ConcatAssoc(s + "://", u, h);
      ConcatAssoc(s + "://", u + h, p);
      SchemeOfUrl(s, n, t);
    }
    assert SplitNetloc(rest) == (n, t) by {
      NetlocOfParts(u, h, p);
      NetlocOfPrefix(n, t);
    }
    assert Hostname(n) == Some(Lower(h)) by {
      NoneOfHas(h, ComponentDelimiters, '@');
      NoneOfHas(h, ComponentDelimiters, ':');
      HostnameOfParts(u, h, p);
    }
    NormalizeOfParts(url, Lower(s), rest, n, t);
  }

  /**
    A lower-case scheme and a lower-case host without delimiters, rejoined,
    split back into themselves with empty path, query and fragment.
   */
  lemma RejoinReparses(s: string, h: string)
    requires s != "" && IsAsciiLetter(s[0]) && AllSchemeChars(s) && IsLower(s)
    requires h != "" && IsLower(h) && NoneOf(h, ComponentDelimiters)
    ensures UrlSplit(Rejoin(s, h)) == SplitResult(s, h, "", "", "")
    ensures Hostname(h) == Some(h)
  {
    var r := Rejoin(s, h);
    var rest := "//" + h + "";
    assert SplitScheme(r) == (s, rest) by {
      assert r == s + ":" + rest;
      SchemeOfPrefix(s, rest);
      LowerOfLower(s);
    }
    assert SplitNetloc(rest) == (h, "") by {
      NoneOfSubset(h, ComponentDelimiters, NetlocDelimiters);
      NetlocOfPrefix(h, "");
    }
    UrlSplitOf(r, s, rest, h, "");
    assert SplitTail("") == ("", "", "");
    NoneOfHas(h, ComponentDelimiters, '@');
    NoneOfHas(h, ComponentDelimiters, ':');
    HostnameOfHost(h);
  }

  /**
    When the input has a scheme and a hostname, the normalised name splits
    back into that scheme and a network location that is exactly the
    hostname, with empty path, query and fragment; its hostname is itself.
   */
  lemma NormalizeReparses(url: string)
    requires UrlSplit(url).scheme != ""
    requires Hostname(UrlSplit(url).netloc).Some?
    ensures var host := Hostname(UrlSplit(url).netloc).value;
      UrlSplit(NormalizeUrl(url)) == SplitResult(UrlSplit(url).scheme, host, "", "", "")
      && Hostname(host) == Some(host)
  {
    var s, n := UrlSplit(url).scheme, UrlSplit(url).netloc;
    var h := Hostname(n).value;
    assert IsAsciiLetter(s[0]) && AllSchemeChars(s) && IsLower(s) by {
      UrlSplitFacts(url);
    }
    assert h != "" && IsLower(h) && NoneOf(h, ComponentDelimiters) by {
      UrlSplitFacts(url);
      HostnameFacts(n);
    }
    RejoinReparses(s, h);
  }

  /** Normalising a normalised name changes nothing, for inputs with a scheme and a hostname. */
  lemma NormalizeIdempotent(url: string)
    requires UrlSplit(url).scheme != ""
    requires Hostname(UrlSplit(url).netloc).Some?
    ensures NormalizeUrl(NormalizeUrl(url)) == NormalizeUrl(url)
  {
    NormalizeReparses(url);
  }

  /** Without a scheme, "//" and a host normalise to "://" and that host. */
  lemma SchemelessHost(h: string)
    requires h != "" && IsLower(h) && NoneOf(h, ComponentDelimiters)
    ensures NormalizeUrl("//" + h) == "://" + h
  {
    var a := "//" + h;
    NoneOfHas(h, ComponentDelimiters, '@');
    NoneOfHas(h, ComponentDelimiters, ':');
    assert SplitScheme(a) == ("", a) by {
      forall j | 0 <= j < |a| ensures a[j] !in {':'} {
        if j >= 2 { assert a[j] == h[j - 2] && h[j - 2] in h; }
      }
      FirstOfAnyIs(a, {':'}, |a|);
    }
    assert SplitNetloc(a) == (h, "") by {
      assert a == "//" + h + "";
      NoneOfSubset(h, ComponentDelimiters, NetlocDelimiters);
      NetlocOfPrefix(h, "");
    }
    UrlSplitOf(a, "", a, h, "");
    HostnameOfHost(h);
    assert "" + "://" + h == "://" + h;
  }

  /** A name starting with "://" has neither scheme nor hostname, so it normalises to "://None". */
  lemma SchemelessEmptyHost(h: string)
    ensures NormalizeUrl("://" + h) == "://None"
  {
    var b := "://" + h;
    assert SplitScheme(b) == ("", b) by {
      FirstOfAnyIs(b, {':'}, 0);
    }
    assert SplitNetloc(b) == ("", b) by {
      assert b[..2] == ":/";
    }
    UrlSplitOf(b, "", b, "", b);
    assert Hostname("") == None;
    assert "" + "://" + "None" == "://None";
  }

  /**
    So normalisation is not idempotent without a scheme: "//" and a host
    normalise to a name whose own normalisation has lost the host.
   */
  lemma SchemelessNotIdempotent(h: string)
    requires h != "" && IsLower(h) && NoneOf(h, ComponentDelimiters)
    ensures NormalizeUrl(NormalizeUrl("//" + h)) == "://None" != NormalizeUrl("//" + h)
  {
    SchemelessHost(h);
    SchemelessEmptyHost(h);
    assert ("://" + h)[3] == h[0] != 'N' == "://None"[3];
  }

  // -------------------------------------------------------------------------
  // validate_url
  // -------------------------------------------------------------------------

  /** The length limit of validate_url (also `MAX_URL_LEN` in app.py). */
  const MaxUrlLength: nat := 255

  const MalformedMessage: string := "Некорректный URL"
  const EmptyMessage: string := "URL не может быть пустым"
  const TooLongMessage: string := "Слишком длинный URL (должен быть короче 255 символов)"

  datatype UrlError = Malformed | Empty | TooLong

  function Message(e: UrlError): string {
    match e
    case Malformed => MalformedMessage
    case Empty => EmptyMessage
    case TooLong => TooLongMessage
  }

  /**
    The error that validate_url reports, stated as a precedence: too long
    beats empty, which beats malformed.
   */
  function Verdict(url: string, isValidUrl: string -> bool): Option<UrlError> {
    if |url| > MaxUrlLength then Some(TooLong)
    else if url == "" then Some(Empty)
    else if !isValidUrl(url) then Some(Malformed)
    else None
  }

  /** The error dictionary for a verdict: empty, or one message under "url". */
  function ErrorsOf(v: Option<UrlError>): map<string, string> {
    match v
    case None => map[]
    case Some(e) => map["url" := Message(e)]
  }

  /**
    `validate_url`: three checks in a fixed order, each overwriting the same
    "url" entry, so the last that applies is the one reported.
    `isValidUrl` stands for `validators.url`.
   */
  method ValidateUrl(url: string, isValidUrl: string -> bool) returns (errors: map<string, string>)
    ensures errors == ErrorsOf(Verdict(url, isValidUrl))
    ensures errors == map[] <==> isValidUrl(url) && url != "" && |url| <= MaxUrlLength
    ensures errors.Keys <= {"url"}
    ensures |url| > MaxUrlLength ==> errors == map["url" := TooLongMessage]
    ensures url == "" ==> errors == map["url" := EmptyMessage]
    ensures "url" in errors && errors["url"] == MalformedMessage
      <==> url != "" && |url| <= MaxUrlLength && !isValidUrl(url)
  {
    errors := map[];
    if !isValidUrl(url) {
      errors := errors["url" := MalformedMessage];
    }
    if url == "" {
      errors := errors["url" := EmptyMessage];
    }
    if |url| > MaxUrlLength {
      errors := errors["url" := TooLongMessage];
    }
    assert "url" in errors <==> !isValidUrl(url) || url == "" || |url| > MaxUrlLength;
  }
}
