/** The two regular expressions `extract_media` applies to a message text:
    the URL check of bot.py:88 (`re.match`, anchored at the start only) and the
    shortcode search of bot.py:95 (`re.search`, group 2), written out by hand
    over `string`. */
module Links {
  import opened Common

  /** `[a-zA-Z0-9_-]`: ASCII letters, digits, underscore and hyphen. */
  predicate IsShortcodeChar(c: char) {
    'a' <= c <= 'z' || 'A' <= c <= 'Z' || '0' <= c <= '9' || c == '_' || c == '-'
  }

  const Host: string := "instagram.com/"

  // ----- The URL check, bot.py:88 -----

  /** `https?://`: where the scheme ends. */
  function SchemeEnd(s: string): Option<nat> {
    if LiteralAt(s, 0, "https://") then Some(8)
    else if LiteralAt(s, 0, "http://") then Some(7)
    else None
  }

  /** `(www\.)?instagram\.com/` from position `i`: where the host ends. The
      pattern without `www.` cannot match where `www.` stands, so taking the
      optional group whenever it is there loses no match. */
  function HostEnd(s: string, i: nat): Option<nat> {
    var j := if LiteralAt(s, i, "www.") then i + 4 else i;
    if LiteralAt(s, j, Host) then Some(j + |Host|) else None
  }

  /** `(p|reel|tv|stories)/` from position `i`: where the path segment ends.
      The alternatives start with different letters, so at most one applies. */
  function KindEnd(s: string, i: nat): Option<nat> {
    if LiteralAt(s, i, "p/") then Some(i + 2)
    else if LiteralAt(s, i, "reel/") then Some(i + 5)
    else if LiteralAt(s, i, "tv/") then Some(i + 3)
    else if LiteralAt(s, i, "stories/") then Some(i + 8)
    else None
  }

  /** Where the shortcode begins when the URL check accepts `s`. The rest of
      the pattern, `[a-zA-Z0-9_-]+/?`, needs only one shortcode character here,
      since nothing has to follow the match. */
  function ShortcodeStart(s: string): (r: Option<nat>)
    ensures r.Some? ==> r.value < |s| && IsShortcodeChar(s[r.value])
  {
    match SchemeEnd(s)
    case None => None
    case Some(a) =>
      match HostEnd(s, a)
      case None => None
      case Some(b) =>
        match KindEnd(s, b)
        case None => None
        case Some(c) => if c < |s| && IsShortcodeChar(s[c]) then Some(c) else None
  }

  /** The URL check of bot.py:88: exactly the texts the pattern matches. */
  predicate IsInstagramUrl(s: string): (ok: bool)
    ensures ok <==> MatchesUrlPattern(s)
  {
    UrlCheckMatchesPattern(s);
    ShortcodeStart(s).Some?
  }

  // ----- The pattern as a set of prefixes -----

  const Schemes: set<string> := {"http://", "https://"}
  const WwwPrefixes: set<string> := {"", "www."}
  const KindSegments: set<string> := {"p/", "reel/", "tv/", "stories/"}

  /** `s` starts with `prefix` and a shortcode character comes right after it. */
  predicate FollowedByShortcodeChar(s: string, prefix: string) {
    |prefix| < |s| && s[..|prefix|] == prefix && IsShortcodeChar(s[|prefix|])
  }

  /** What `re.match` with the pattern of bot.py:88 accepts: some choice of
      scheme, optional `www.` and path segment, then one shortcode character. */
  ghost predicate MatchesUrlPattern(s: string) {
    exists scheme, www, kind ::
      scheme in Schemes && www in WwwPrefixes && kind in KindSegments
      && FollowedByShortcodeChar(s, scheme + www + Host + kind)
  }

  /** Splitting a matched prefix into its four parts, and joining them back. */
  lemma PrefixParts(s: string, x: string, y: string, z: string, w: string)
    requires |x| + |y| + |z| + |w| <= |s|
    ensures s[..|x + y + z + w|] == x + y + z + w <==>
      && LiteralAt(s, 0, x) && LiteralAt(s, |x|, y)
      && LiteralAt(s, |x| + |y|, z) && LiteralAt(s, |x| + |y| + |z|, w)
  {
  }

  lemma SchemeEndOf(s: string, scheme: string)
    requires scheme in Schemes && LiteralAt(s, 0, scheme)
    ensures SchemeEnd(s) == Some(|scheme|)
  {
    if scheme == "http://" {
      assert s[..7][4] == s[4];
    }
  }

  lemma SchemeEndFound(s: string)
    requires SchemeEnd(s).Some?
    ensures SchemeEnd(s).value <= |s| && s[..SchemeEnd(s).value] in Schemes
  {
  }

  lemma HostEndOf(s: string, a: nat, www: string)
    requires www in WwwPrefixes && LiteralAt(s, a, www) && LiteralAt(s, a + |www|, Host)
    ensures HostEnd(s, a) == Some(a + |www| + |Host|)
  {
    if www == "" {
      assert s[a..a + |Host|][0] == s[a];
    }
  }

  lemma HostEndFound(s: string, a: nat)
    requires HostEnd(s, a).Some?
    ensures var www := if LiteralAt(s, a, "www.") then "www." else "";
      www in WwwPrefixes && LiteralAt(s, a, www) && LiteralAt(s, a + |www|, Host)
      && HostEnd(s, a).value == a + |www| + |Host|
  {
  }

  lemma KindEndOf(s: string, b: nat, kind: string)
    requires kind in KindSegments && LiteralAt(s, b, kind)
    ensures KindEnd(s, b) == Some(b + |kind|)
  {
    var c := s[b];
    assert c == kind[0] by { assert s[b..b + |kind|][0] == s[b]; }
    if LiteralAt(s, b, "p/") { assert s[b..b + 2][0] == c; }
    if LiteralAt(s, b, "reel/") { assert s[b..b + 5][0] == c; }
    if LiteralAt(s, b, "tv/") { assert s[b..b + 3][0] == c; }
  }

  lemma KindEndFound(s: string, b: nat)
    requires KindEnd(s, b).Some?
    ensures var c := KindEnd(s, b).value;
      b <= c <= |s| && s[b..c] in KindSegments && LiteralAt(s, b, s[b..c])
  {
  }

  /** The position the check reports is the length of the matched prefix. */
  lemma ShortcodeStartOfPrefix(s: string, scheme: string, www: string, kind: string)
    requires scheme in Schemes && www in WwwPrefixes && kind in KindSegments
    requires FollowedByShortcodeChar(s, scheme + www + Host + kind)
    ensures ShortcodeStart(s) == Some(|scheme + www + Host + kind|)
  {
    PrefixParts(s, scheme, www, Host, kind);
    SchemeEndOf(s, scheme);
    HostEndOf(s, |scheme|, www);
    KindEndOf(s, |scheme| + |www| + |Host|, kind);
  }

  /** The hand-written check accepts exactly what the pattern matches. */
  lemma UrlCheckMatchesPattern(s: string)
    ensures ShortcodeStart(s).Some? <==> MatchesUrlPattern(s)
  {
    if ShortcodeStart(s).Some? {
      SchemeEndFound(s);
      var a := SchemeEnd(s).value;
      HostEndFound(s, a);
      var b := HostEnd(s, a).value;
      KindEndFound(s, b);
      var c := KindEnd(s, b).value;
      var scheme := s[..a];
      var www := if LiteralAt(s, a, "www.") then "www." else "";
      var kind := s[b..c];
      PrefixParts(s, scheme, www, Host, kind);
      assert FollowedByShortcodeChar(s, scheme + www + Host + kind);
    }
    if MatchesUrlPattern(s) {
      var scheme, www, kind :|
        scheme in Schemes && www in WwwPrefixes && kind in KindSegments
        && FollowedByShortcodeChar(s, scheme + www + Host + kind);
      ShortcodeStartOfPrefix(s, scheme, www, kind);
    }
  }

  /** `re.match` is anchored at the start only: text after an accepted URL
      never changes the verdict or where the shortcode starts. */
  lemma UrlCheckIgnoresSuffix(s: string, t: string)
    requires IsInstagramUrl(s)
    ensures IsInstagramUrl(s + t)
    ensures ShortcodeStart(s + t) == ShortcodeStart(s)
  {
    var scheme, www, kind :|
      scheme in Schemes && www in WwwPrefixes && kind in KindSegments
      && FollowedByShortcodeChar(s, scheme + www + Host + kind);
    var p := scheme + www + Host + kind;
    assert (s + t)[..|p|] == s[..|p|];
    assert FollowedByShortcodeChar(s + t, p);
    ShortcodeStartOfPrefix(s, scheme, www, kind);
    ShortcodeStartOfPrefix(s + t, scheme, www, kind);
  }

  // ----- The shortcode search, bot.py:95 -----

  /** `[a-zA-Z0-9_-]+` is greedy: the end of the run of shortcode characters
      that starts at `i`. */
  function RunEnd(s: string, i: nat): (j: nat)
    requires i <= |s|
    ensures i <= j <= |s|
    ensures forall k :: i <= k < j ==> IsShortcodeChar(s[k])
    ensures j == |s| || !IsShortcodeChar(s[j])
    decreases |s| - i
  {
    if i < |s| && IsShortcodeChar(s[i]) then RunEnd(s, i + 1) else i
  }

  /** `instagram\.com/(p|reel|tv|stories)/([a-zA-Z0-9_-]+)` tried at position
      `i`: where group 2 starts, if the pattern matches there. */
  function CodeStartAt(s: string, i: nat): Option<nat> {
    if LiteralAt(s, i, Host) then
      match KindEnd(s, i + |Host|)
      case None => None
      case Some(c) => if c < |s| && IsShortcodeChar(s[c]) then Some(c) else None
    else None
  }

  /** `re.search` from position `i`: the span of group 2 at the leftmost
      position where the pattern matches. */
  function SearchFrom(s: string, i: nat): (r: Option<(nat, nat)>)
    requires i <= |s|
    ensures r.Some? ==> i <= r.value.0 < r.value.1 <= |s|
    ensures r.Some? ==> forall k :: r.value.0 <= k < r.value.1 ==> IsShortcodeChar(s[k])
    ensures r.Some? ==> r.value.1 == |s| || !IsShortcodeChar(s[r.value.1])
    decreases |s| - i
  {
    match CodeStartAt(s, i)
    case Some(c) =>
      assert IsShortcodeChar(s[c]);
      Some((c, RunEnd(s, c)))
    case None => if i == |s| then None else SearchFrom(s, i + 1)
  }

  /** `re.search(...).group(2)` of bot.py:95; `None` where `.group` would
      raise on a failed search. */
  function ExtractShortcode(s: string): (r: Option<string>)
    ensures r.Some? ==> |r.value| > 0 && forall k :: 0 <= k < |r.value| ==> IsShortcodeChar(r.value[k])
    ensures IsInstagramUrl(s) ==> r.Some?
  {
    var r := match SearchFrom(s, 0)
      case None => None
      case Some((lo, hi)) => Some(s[lo..hi]);
    if IsInstagramUrl(s) then SearchFindsCheckedShortcode(s); r else r
  }

  /** The search is leftmost: it succeeds exactly when the pattern matches
      somewhere from `i` on, and then group 2 is the one of the first position
      where it matches. */
  lemma {:induction false} SearchIsLeftmost(s: string, i: nat)
    requires i <= |s|
    ensures SearchFrom(s, i).None? <==> forall k :: i <= k <= |s| ==> CodeStartAt(s, k).None?
    ensures SearchFrom(s, i).Some? ==>
      (exists k :: i <= k <= |s|
        && CodeStartAt(s, k) == Some(SearchFrom(s, i).value.0)
        && (forall k' :: i <= k' < k ==> CodeStartAt(s, k').None?))
    decreases |s| - i
  {
    if CodeStartAt(s, i).None? && i < |s| {
      SearchIsLeftmost(s, i + 1);
      if SearchFrom(s, i).Some? {
        var k :| i + 1 <= k <= |s| && CodeStartAt(s, k) == Some(SearchFrom(s, i).value.0)
          && (forall k' :: i + 1 <= k' < k ==> CodeStartAt(s, k').None?);
        assert forall k' :: i <= k' < k ==> CodeStartAt(s, k').None?;
      }
    }
  }

  lemma {:induction false} SearchSkips(s: string, i: nat, j: nat)
    requires i <= j <= |s|
    requires forall k :: i <= k < j ==> CodeStartAt(s, k).None?
    ensures SearchFrom(s, i) == SearchFrom(s, j)
    decreases j - i
  {
    if i < j {
      SearchSkips(s, i + 1, j);
    }
  }

  /** No `instagram.com/` can start at a position holding another letter. */
  lemma NoCodeAt(s: string, k: nat)
    requires k < |s| && s[k] != 'i'
    ensures CodeStartAt(s, k).None?
  {
  }

  /** The characters the URL check consumed before the host are scheme and
      `www.`, none of them an `i`. */
  lemma NoHostLetterBefore(s: string, k: nat)
    requires SchemeEnd(s).Some?
    requires k < (if LiteralAt(s, SchemeEnd(s).value, "www.") then SchemeEnd(s).value + 4 else SchemeEnd(s).value)
    ensures k < |s| && s[k] != 'i'
  {
    var a := SchemeEnd(s).value;
    if k < a {
      if LiteralAt(s, 0, "https://") {
        assert s[k] == "https://"[k];
      } else {
        assert s[k] == "http://"[k];
      }
    } else {
      assert s[k] == s[a..a + 4][k - a] == "www."[k - a];
    }
  }

  /** Whenever the URL check passes, the search of bot.py:95 matches at the
      host the check saw, and group 2 starts where the check's shortcode starts. */
  lemma SearchFindsCheckedShortcode(s: string)
    requires IsInstagramUrl(s)
    ensures var c := ShortcodeStart(s).value;
      SearchFrom(s, 0) == Some((c, RunEnd(s, c)))
  {
    var a := SchemeEnd(s).value;
    var h := if LiteralAt(s, a, "www.") then a + 4 else a;
    forall k | 0 <= k < h
      ensures CodeStartAt(s, k).None?
    {
      NoHostLetterBefore(s, k);
      NoCodeAt(s, k);
    }
    SearchSkips(s, 0, h);
  }

  /** Whenever the URL check passes, the extraction succeeds with a non-empty
      run of shortcode characters that starts where the check saw the
      shortcode begin and is maximal: the character after it, if any, is not
      a shortcode character. */
  lemma ValidUrlHasShortcode(s: string)
    requires IsInstagramUrl(s)
    ensures var c := ShortcodeStart(s).value;
      && ExtractShortcode(s).Some?
      && var code := ExtractShortcode(s).value;
      && |code| > 0
      && c + |code| <= |s| && s[c..c + |code|] == code
      && (forall k :: 0 <= k < |code| ==> IsShortcodeChar(code[k]))
      && (c + |code| == |s| || !IsShortcodeChar(s[c + |code|]))
  {
    SearchFindsCheckedShortcode(s);
  }
}
