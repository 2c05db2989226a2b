/**
 * The frontend's API client. Each call that names a character writes the name into the
 * request URL as it is, without encoding it, so what the backend's `{character_name}`
 * parameter holds follows from how the browser parses that URL (the WHATWG URL Standard)
 * and how the server decodes its path. Spaces and controls at the end of the URL are
 * trimmed, tabs and line breaks are dropped, '?' and '#' end the path, '/' and '\' separate
 * segments, "." and ".." segments are resolved, and the server percent-decodes what
 * remains.
 */
module ApiClient {
  import opened Wrappers
  import Uri

  /** Characters that make a name reach the backend as another name, or as none. */
  predicate Misrouting(c: char) {
    c == '/' || c == '?' || c == '#' || c == '\\' || IsTabOrNewline(c)
  }

  /** Characters that change the request path when a name holds them. */
  predicate PathSpecial(c: char) {
    Misrouting(c) || c == '%'
  }

  /** What the URL parser trims from the end of a URL: C0 controls and the space. */
  predicate IsControlOrSpace(c: char) {
    c <= ' '
  }

  predicate IsTabOrNewline(c: char) {
    c == '\t' || c == '\n' || c == '\r'
  }

  /** A name the backend receives exactly as it was sent. */
  predicate PathSafe(name: string) {
    && name != "" && name != "." && name != ".."
    && !IsControlOrSpace(name[|name| - 1])
    && forall i :: 0 <= i < |name| ==> !PathSpecial(name[i])
  }

  /** A name the URL parser is certain to change on its way to the backend. */
  predicate Misrouted(name: string) {
    || (exists i :: 0 <= i < |name| && Misrouting(name[i]))
    || (|name| > 0 && IsControlOrSpace(name[|name| - 1]))
  }

  /** The URL parser's trim: spaces and C0 controls at the end of the URL are dropped. */
  function TrimEnd(s: string): (t: string)
    ensures |t| <= |s| && t == s[..|t|]
    ensures |t| > 0 ==> !IsControlOrSpace(t[|t| - 1])
    ensures |s| > 0 && !IsControlOrSpace(s[|s| - 1]) ==> t == s
  {
    if |s| == 0 || !IsControlOrSpace(s[|s| - 1]) then s else TrimEnd(s[..|s| - 1])
  }

  /** The URL parser drops every tab, line feed and carriage return. */
  function RemoveTabsAndNewlines(s: string): (t: string)
    ensures |t| <= |s|
    ensures (exists i :: 0 <= i < |s| && IsTabOrNewline(s[i])) ==> |t| < |s|
    ensures (forall i :: 0 <= i < |s| ==> !IsTabOrNewline(s[i])) ==> t == s
  {
    if |s| == 0 then []
    else
      var rest := RemoveTabsAndNewlines(s[1..]);
      assert (exists i :: 0 <= i < |s| && IsTabOrNewline(s[i])) && !IsTabOrNewline(s[0])
             ==> exists i :: 0 <= i < |s[1..]| && IsTabOrNewline(s[1..][i]);
      assert (forall i :: 0 <= i < |s| ==> !IsTabOrNewline(s[i])) ==> [s[0]] + s[1..] == s;
      if IsTabOrNewline(s[0]) then rest else [s[0]] + rest
  }

  /** The part of `name` before its first '?' or '#'; the rest becomes query or fragment. */
  function PathPart(name: string): (p: string)
    ensures |p| <= |name| && p == name[..|p|]
    ensures forall i :: 0 <= i < |p| ==> p[i] != '?' && p[i] != '#'
    ensures |p| < |name| ==> name[|p|] == '?' || name[|p|] == '#'
  {
    if |name| == 0 || name[0] == '?' || name[0] == '#' then []
    else [name[0]] + PathPart(name[1..])
  }

  /**
   * The server's percent-decoding of the path: the escapes decoded when they all form
   * UTF-8, the text kept as it is otherwise.
   */
  function Unquote(p: string): (q: string)
    ensures q == p || |q| < |p|
    ensures (forall i :: 0 <= i < |p| ==> p[i] != '%') ==> q == p
  {
    match Uri.DecodeURIComponent(p)
    case None => p
    case Some(d) =>
      Uri.DecodeShrinks(p);
      assert (forall i :: 0 <= i < |p| ==> p[i] != '%') ==> d == p by {
        if forall i :: 0 <= i < |p| ==> p[i] != '%' {
          Uri.DecodeWithoutPercent(p);
        }
      }
      d
  }

  /** Whether `c` ends a path segment: in an http URL the parser reads '\' as '/'. */
  predicate IsSeparator(c: char) {
    c == '/' || c == '\\'
  }

  /** A path segment: text without '/' or '\'. */
  predicate NoSeparator(x: string) {
    forall i :: 0 <= i < |x| ==> !IsSeparator(x[i])
  }

  /** A path segment no longer than `bound`. */
  predicate Piece(x: string, bound: nat) {
    |x| <= bound && NoSeparator(x)
  }

  /** Every element of `xs` from position `from` on is a `Piece`. */
  predicate PiecesFrom(xs: seq<string>, from: nat, bound: nat) {
    forall j :: from <= j < |xs| ==> Piece(xs[j], bound)
  }

  /** The segments of a path, split at every '/' and '\'. */
  function Segments(p: string): (segs: seq<string>)
    ensures |segs| >= 1
    ensures PiecesFrom(segs, 0, |p|)
    ensures NoSeparator(p) ==> segs == [p]
  {
    if |p| == 0 then [""]
    else
      var rest := Segments(p[1..]);
      assert Piece("", |p|);
      assert forall j :: 0 <= j < |rest| ==> Piece(rest[j], |p|);
      if IsSeparator(p[0]) then [""] + rest
      else
        var first := [p[0]] + rest[0];
        assert Piece(first, |p|) by {
          assert forall i :: 1 <= i < |first| ==> first[i] == rest[0][i - 1];
        }
        assert NoSeparator(p) ==> NoSeparator(p[1..]) && rest == [p[1..]] && [p[0]] + p[1..] == p;
        [first] + rest[1..]
  }

  /** A "." segment, or its escape "%2e" in either case. */
  predicate IsSingleDot(seg: string) {
    || seg == "."
    || (|seg| == 3 && seg[0] == '%' && seg[1] == '2' && (seg[2] == 'e' || seg[2] == 'E'))
  }

  /** A ".." segment, either dot possibly escaped. */
  predicate IsDoubleDot(seg: string) {
    || (|seg| >= 1 && IsSingleDot(seg[..1]) && IsSingleDot(seg[1..]))
    || (|seg| >= 3 && IsSingleDot(seg[..3]) && IsSingleDot(seg[3..]))
  }

  /** Without '/', '\' or '%', only "." and ".." are dot segments. */
  lemma PlainSegment(seg: string)
    requires seg != "." && seg != ".."
    requires forall i :: 0 <= i < |seg| ==> !PathSpecial(seg[i])
    ensures !IsSingleDot(seg) && !IsDoubleDot(seg)
  {
    assert |seg| >= 2 ==> seg[1..][0] == seg[1] && seg == [seg[0]] + seg[1..];
    assert |seg| >= 3 ==> seg[..3][0] == seg[0];
  }

  /**
   * The URL parser's path state: each segment in turn is appended to `stack`, except that
   * ".." removes the last one and "." is dropped; either of them as the final segment
   * leaves an empty final segment, as a trailing '/' would.
   */
  function Resolve(stack: seq<string>, segs: seq<string>): seq<string>
    decreases |segs|
  {
    if |segs| == 0 then stack
    else
      var seg, last := segs[0], |segs| == 1;
      var next :=
        if IsDoubleDot(seg) then
          (if |stack| > 0 then stack[..|stack| - 1] else stack) + (if last then [""] else [])
        else if IsSingleDot(seg) then stack + (if last then [""] else [])
        else stack + [seg];
      Resolve(next, segs[1..])
  }

  /** Past the first position, resolution only ever holds segments it was given, or "". */
  lemma {:induction false} ResolveKeepsPieces(stack: seq<string>, segs: seq<string>, bound: nat)
    requires PiecesFrom(stack, 1, bound) && PiecesFrom(segs, 0, bound)
    ensures PiecesFrom(Resolve(stack, segs), 1, bound)
    decreases |segs|
  {
    if |segs| > 0 {
      var seg, last := segs[0], |segs| == 1;
      var next :=
        if IsDoubleDot(seg) then
          (if |stack| > 0 then stack[..|stack| - 1] else stack) + (if last then [""] else [])
        else if IsSingleDot(seg) then stack + (if last then [""] else [])
        else stack + [seg];
      assert Resolve(stack, segs) == Resolve(next, segs[1..]);
      assert Piece("", bound) && Piece(seg, bound);
      assert PiecesFrom(next, 1, bound);
      assert PiecesFrom(segs[1..], 0, bound) by {
        assert forall j :: 0 <= j < |segs[1..]| ==> segs[1..][j] == segs[j + 1];
      }
      ResolveKeepsPieces(next, segs[1..], bound);
    }
  }

  /** A segment that is neither empty nor a dot segment, and holds nothing special. */
  predicate PlainName(p: string) {
    p != "" && p != "." && p != ".." && forall i :: 0 <= i < |p| ==> !PathSpecial(p[i])
  }

  /** A plain name resolves to itself, below "characters". */
  lemma ResolvePlain(p: string)
    requires PlainName(p)
    ensures Resolve(["characters"], Segments(p)) == ["characters", p]
  {
    PlainSegment(p);
    assert Segments(p) == [p] && [p][1..] == [];
    assert ["characters"] + [p] == ["characters", p];
  }

  /** The route's first segment has nothing to decode. */
  lemma RoutePrefixUnquoted()
    ensures Unquote("characters") == "characters"
  {
    var c := "characters";
    assert forall i :: 0 <= i < |c| ==> c[i] != '%';
  }

  /**
   * The name that the route `/characters/{character_name}` extracts from the request path
   * `/characters/` + `p`, or `None` when that path reaches no such route. The path is
   * resolved first, so "./Bob" and "x/../Bob" arrive as "Bob"; after that it must be
   * "characters" and one segment, which must decode to non-empty text without '/'.
   */
  function RoutedName(p: string): (r: Option<string>)
    ensures r.Some? ==> |r.value| <= |p| && r.value != ""
    ensures r == Some(p) ==> NoSeparator(p)
    ensures PlainName(p) ==> r == Some(p)
  {
    var path := Resolve(["characters"], Segments(p));
    ResolveKeepsPieces(["characters"], Segments(p), |p|);
    assert PlainName(p) ==> path == ["characters", p] by {
      if PlainName(p) {
        ResolvePlain(p);
      }
    }
    RoutePrefixUnquoted();
    if |path| != 2 || Unquote(path[0]) != "characters" then None
    else
      assert Piece(path[1], |p|);
      var q := Unquote(path[1]);
      assert q == p ==> q == path[1];
      if q == "" || exists i :: 0 <= i < |q| && q[i] == '/' then None else Some(q)
  }

  /**
   * The `{character_name}` the backend receives for the URL `/characters/${name}`, or
   * `None` when that URL reaches no single-name route: the URL is trimmed, loses its tabs
   * and line breaks and its query and fragment, and what is left of the path is routed.
   */
  function ReceivedName(name: string): (r: Option<string>)
    ensures r.Some? ==> |r.value| <= |name| && r.value != ""
    ensures PathSafe(name) ==> r == Some(name)
  {
    var u := RemoveTabsAndNewlines(TrimEnd(name));
    var p := PathPart(u);
    assert PathSafe(name) ==> TrimEnd(name) == name && u == name;
    assert PathSafe(name) && |p| < |u| ==> !PathSpecial(u[|p|]);
    assert PathSafe(name) ==> u[..|u|] == u && p == name && PlainName(p);
    RoutedName(p)
  }

  /** A leading "./" or ".\" makes a "." segment of its own. */
  lemma SegmentsAfterDot(sep: char, p: string)
    requires IsSeparator(sep) && NoSeparator(p)
    ensures Segments(['.', sep] + p) == [".", p]
  {
    var d, tail := ['.', sep] + p, [sep] + p;
    assert d[0] == '.' && d[1..] == tail;
    assert tail[0] == sep && tail[1..] == p;
    assert Segments(tail) == [""] + Segments(p);
    assert Segments(d) == [[d[0]] + Segments(tail)[0]] + Segments(tail)[1..];
    assert [d[0]] + "" == ".";
  }

  /** The path "./" + `p` or ".\" + `p` routes as `p`. */
  lemma DotSegmentRouted(sep: char, p: string)
    requires IsSeparator(sep) && PlainName(p)
    ensures RoutedName(['.', sep] + p) == Some(p)
  {
    assert NoSeparator(p);
    SegmentsAfterDot(sep, p);
    PlainSegment(p);
    assert IsSingleDot(".") && !IsDoubleDot(".") && [".", p][1..] == [p];
    assert Resolve(["characters"], [".", p]) == Resolve(["characters"] + [], [p]);
    assert ["characters"] + [] == ["characters"] && Segments(p) == [p];
    ResolvePlain(p);
    RoutePrefixUnquoted();
    assert Unquote(p) == p;
  }

  /** A name behind "./" or ".\" reaches the backend without it: ".\Bob" arrives as "Bob". */
  lemma DotSegmentResolved(sep: char, name: string)
    requires IsSeparator(sep) && PathSafe(name)
    ensures ReceivedName(['.', sep] + name) == Some(name)
  {
    var d := ['.', sep] + name;
    assert forall i :: 0 <= i < |d| ==> d[i] == '.' || d[i] == sep || d[i] == name[i - 2];
    assert d[|d| - 1] == name[|name| - 1];
    assert RemoveTabsAndNewlines(TrimEnd(d)) == d;
    assert PathPart(d) == d by {
      assert |PathPart(d)| == |d|;
    }
    DotSegmentRouted(sep, name);
  }

  /** A '/' after a segment ends it: the segments of `a/b` are `a` and those of `b`. */
  lemma {:induction false} SegmentsJoin(a: string, b: string)
    requires NoSeparator(a)
    ensures Segments(a + "/" + b) == [a] + Segments(b)
    decreases |a|
  {
    var j := a + "/" + b;
    if |a| == 0 {
      assert j == "/" + b && j[1..] == b;
    } else {
      assert NoSeparator(a[1..]);
      SegmentsJoin(a[1..], b);
      assert j[0] == a[0] && j[1..] == a[1..] + "/" + b;
      assert [a[0]] + a[1..] == a;
    }
  }

  /** The path `x/../p` routes as `p`. */
  lemma ParentSegmentRouted(x: string, p: string)
    requires PlainName(x) && PlainName(p)
    ensures RoutedName(x + "/../" + p) == Some(p)
  {
    var d := x + "/../" + p;
    assert d == x + "/" + (".." + "/" + p);
    assert NoSeparator(x) && NoSeparator("..") && NoSeparator(p);
    SegmentsJoin(x, ".." + "/" + p);
    SegmentsJoin("..", p);
    assert Segments(d) == [x, "..", p];
    PlainSegment(x);
    PlainSegment(p);
    assert IsDoubleDot("..") by {
      assert ".."[..1] == "." && ".."[1..] == ".";
    }
    assert [x, "..", p][1..] == ["..", p] && ["..", p][1..] == [p];
    assert ["characters"] + [x] == ["characters", x] && ["characters", x][..1] == ["characters"];
    assert Resolve(["characters"], [x, "..", p]) == Resolve(["characters", x], ["..", p]);
    assert Resolve(["characters", x], ["..", p]) == Resolve(["characters"] + [], [p]);
    assert ["characters"] + [] == ["characters"];
    ResolvePlain(p);
    RoutePrefixUnquoted();
    assert Unquote(p) == p;
  }

  /** A ".." segment undoes the one before it: "x/../Bob" arrives as "Bob". */
  lemma ParentSegmentResolved(x: string, name: string)
    requires PlainName(x) && PathSafe(name)
    ensures ReceivedName(x + "/../" + name) == Some(name)
  {
    var d := x + "/../" + name;
    assert forall i :: 0 <= i < |d| ==> !IsTabOrNewline(d[i]) && d[i] != '?' && d[i] != '#' by {
      assert forall i :: 0 <= i < |d| ==> d[i] == '/' || d[i] == '.' || d[i] in x || d[i] in name;
    }
    assert d[|d| - 1] == name[|name| - 1];
    assert RemoveTabsAndNewlines(TrimEnd(d)) == d;
    assert PathPart(d) == d by {
      assert |PathPart(d)| == |d|;
    }
    ParentSegmentRouted(x, name);
  }

  /**
   * A name holding '/', '?', '#', '\', a tab or a line break, or ending in a space or a
   * control character, never reaches the backend as itself.
   */
  lemma MisroutedNames(name: string)
    requires Misrouted(name)
    ensures ReceivedName(name) != Some(name)
  {
    var t := TrimEnd(name);
    var u := RemoveTabsAndNewlines(t);
    var p := PathPart(u);
    if |u| == |name| {
      assert |t| == |name| && t == name[..|name|] == name;
      assert u == name;
      var i :| 0 <= i < |name| && Misrouting(name[i]);
      if |p| == |name| {
        assert p == name[..|name|] == name;
        assert IsSeparator(name[i]);
      }
    }
  }

  /** A name with a trailing space loses it: deleting "Bob " asks the backend for "Bob". */
  lemma TrailingSpaceTrimmed()
    ensures ReceivedName("Bob ") == Some("Bob")
  {
    var name, bob := "Bob ", "Bob";
    assert name[..3] == bob && !IsControlOrSpace(bob[2]);
    assert TrimEnd(name) == TrimEnd(bob) == bob;
    assert forall i :: 0 <= i < |bob| ==> !PathSpecial(bob[i]);
    assert PathSafe(bob);
  }

  /** Deleting "Who?" asks the backend for "Who". */
  lemma QuestionMarkEndsName()
    ensures ReceivedName("Who?") == Some("Who")
  {
    var name, who := "Who?", "Who";
    assert !IsControlOrSpace(name[3]);
    assert forall i :: 0 <= i < |name| ==> !IsTabOrNewline(name[i]);
    assert RemoveTabsAndNewlines(TrimEnd(name)) == name;
    assert PathPart(name) == who by {
      assert PathPart(name[3..]) == [];
      assert name[1..][1..][1..] == name[3..];
    }
    assert forall i :: 0 <= i < |who| ==> !PathSpecial(who[i]);
    assert Unquote(who) == who;
  }
}
