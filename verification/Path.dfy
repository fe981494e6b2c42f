/**
 * Path normalisation and resolution (libkernel/src/path.rs).  A path means the
 * list of names that walking its segments from the root leaves.
 */
module Path {

  /** `path.split('/')`: the segments between slashes, empty ones included. */
  function Split(path: string): (segs: seq<string>)
    ensures |segs| >= 1
  {
    if path == "" then [""]
    else
      var rest := Split(path[1..]);
      if path[0] == '/' then [""] + rest else [[path[0]] + rest[0]] + rest[1..]
  }

  /** One segment of a walk: stay, go up (at the root, stay), or go down. */
  function Walk(place: seq<string>, seg: string): seq<string> {
    if seg == "" || seg == "." then place
    else if seg == ".." then (if place == [] then [] else place[..|place| - 1])
    else place + [seg]
  }

  function WalkAll(place: seq<string>, segs: seq<string>): seq<string> {
    if segs == [] then place else Walk(WalkAll(place, segs[..|segs| - 1]), segs[|segs| - 1])
  }

  /** Where a path leads from the root. */
  function Place(path: string): seq<string> {
    WalkAll([], Split(path))
  }

  function Joined(parts: seq<string>): string {
    if parts == [] then "" else Joined(parts[..|parts| - 1]) + "/" + parts[|parts| - 1]
  }

  /** The canonical path of a place. */
  function Spell(parts: seq<string>): string {
    if parts == [] then "/" else Joined(parts)
  }

  predicate CleanSegment(seg: string) {
    seg != "" && seg != "." && seg != ".." && '/' !in seg
  }

  predicate Clean(parts: seq<string>) {
    forall i | 0 <= i < |parts| :: CleanSegment(parts[i])
  }

  // ---- splitting and walking ----

  lemma {:induction false} SplitConcat(a: string, b: string)
    ensures Split(a + "/" + b) == Split(a) + Split(b)
  {
    if a == "" {
      assert (a + "/" + b)[1..] == b;
    } else {
      assert (a + "/" + b)[1..] == a[1..] + "/" + b;
      SplitConcat(a[1..], b);
    }
  }

  lemma SplitOne(c: char)
    ensures Split([c]) == if c == '/' then ["", ""] else [[c]]
  {
    assert [c][1..] == "";
    assert Split([c][1..]) == [""];
    assert [c] + "" == [c];
  }

  lemma {:induction false} SplitLonger(s: string, c: char)
    requires c != '/'
    ensures var segs := Split(s); var last := |segs| - 1;
            Split(s + [c]) == segs[..last] + [segs[last] + [c]]
  {
    if s == "" {
      assert s + [c] == [c];
      SplitOne(c);
    } else {
      assert (s + [c])[1..] == s[1..] + [c];
      SplitLonger(s[1..], c);
      var rest := Split(s[1..]);
      if s[0] != '/' && |rest| == 1 {
        assert [s[0]] + (rest[0] + [c]) == ([s[0]] + rest[0]) + [c];
      }
    }
  }

  lemma SplitSnoc(s: string, c: char)
    ensures var segs := Split(s); var last := |segs| - 1;
            Split(s + [c]) == if c == '/' then segs + [""] else segs[..last] + [segs[last] + [c]]
  {
    if c == '/' {
      SplitEmpty();
      assert s + [c] == s + "/" + "";
      hide Split;
      SplitConcat(s, "");
    } else {
      SplitLonger(s, c);
    }
  }

  lemma {:induction false} SplitPlain(s: string)
    requires '/' !in s
    ensures Split(s) == [s]
  {
    if s != "" {
      SplitPlain(s[1..]);
      assert s == [s[0]] + s[1..];
    }
  }

  lemma {:induction false} SegmentsHaveNoSlash(path: string, i: nat)
    requires i < |Split(path)|
    ensures '/' !in Split(path)[i]
  {
    if path != "" {
      var rest := Split(path[1..]);
      if path[0] == '/' {
        if i > 0 { SegmentsHaveNoSlash(path[1..], i - 1); }
      } else {
        SegmentsHaveNoSlash(path[1..], i);
      }
    }
  }

  lemma {:induction false} WalkConcat(place: seq<string>, a: seq<string>, b: seq<string>)
    ensures WalkAll(place, a + b) == WalkAll(WalkAll(place, a), b)
    decreases |b|
  {
    if b == [] {
      assert a + b == a;
    } else {
      var last := |b| - 1;
      assert (a + b)[..|a + b| - 1] == a + b[..last];
      WalkConcat(place, a, b[..last]);
    }
  }

  lemma {:induction false} WalkStaysClean(place: seq<string>, segs: seq<string>)
    requires Clean(place) && forall i | 0 <= i < |segs| :: '/' !in segs[i]
    ensures Clean(WalkAll(place, segs))
  {
    if segs != [] {
      WalkStaysClean(place, segs[..|segs| - 1]);
    }
  }

  lemma PlaceIsClean(path: string)
    ensures Clean(Place(path))
  {
    forall i | 0 <= i < |Split(path)|
      ensures '/' !in Split(path)[i]
    {
      SegmentsHaveNoSlash(path, i);
    }
    WalkStaysClean([], Split(path));
  }

  /** Names only go down. */
  lemma {:induction false} WalkDown(place: seq<string>, parts: seq<string>)
    requires Clean(parts)
    ensures WalkAll(place, parts) == place + parts
  {
    if parts != [] {
      var last := |parts| - 1;
      WalkDown(place, parts[..last]);
      assert CleanSegment(parts[last]);
      assert parts == parts[..last] + [parts[last]];
    } else {
      assert place + [] == place;
    }
  }

  lemma {:induction false} SplitJoined(parts: seq<string>)
    requires Clean(parts)
    ensures Split(Joined(parts)) == [""] + parts
  {
    if parts != [] {
      var last := |parts| - 1;
      SplitJoined(parts[..last]);
      assert CleanSegment(parts[last]);
      SplitPlain(parts[last]);
      SplitConcat(Joined(parts[..last]), parts[last]);
      assert parts == parts[..last] + [parts[last]];
    }
  }

  /** A canonical path has no empty, `.` or `..` segment, and leads to the place it spells. */
  lemma SpelledPath(parts: seq<string>)
    requires Clean(parts)
    ensures Place(Spell(parts)) == parts
    ensures Split(Spell(parts)) == [""] + (if parts == [] then [""] else parts)
  {
    if parts == [] {
      RootPlace();
    } else {
      SplitJoined(parts);
      WalkConcat([], [""], parts);
      WalkDown([], parts);
      assert WalkAll([], [""]) == [] by { assert WalkAll([], [""][..0]) == []; }
      assert [] + parts == parts;
    }
  }

  lemma RootPlace()
    ensures Split("/") == ["", ""] && Place("/") == []
  {
    assert "/"[1..] == "" && Split("/") == [""] + Split("");
    assert ["", ""][..1] == [""] && [""][..0] == [];
    assert WalkAll([], [""]) == Walk(WalkAll([], []), "");
  }

  // ---- normalize ----

  function Normalized(path: string): string {
    Spell(Place(path))
  }

  /** Normalising keeps the meaning, and normalising again changes nothing. */
  lemma NormalizeIsIdempotent(path: string)
    ensures Place(Normalized(path)) == Place(path)
    ensures Normalized(Normalized(path)) == Normalized(path)
  {
    PlaceIsClean(path);
    SpelledPath(Place(path));
  }

  lemma WalkOne(place: seq<string>, seg: string)
    ensures WalkAll(place, [seg]) == Walk(place, seg)
  {
    assert [seg][..0] == [];
  }

  /** Where a path leads when one more segment is written behind it. */
  lemma PlaceFurther(p: string, seg: string)
    requires '/' !in seg
    ensures Place(p + "/" + seg) == Walk(Place(p), seg)
  {
    hide Split, WalkAll, Walk;
    SplitConcat(p, seg);
    SplitPlain(seg);
    WalkConcat([], Split(p), [seg]);
    WalkOne(Place(p), seg);
  }

  /**
   * What the segments mean: a name leads one level further down, `..` behind it leads back, `..`
   * leads from the root to the root, and `.` or nothing leads nowhere else.
   */
  lemma SegmentsMean(p: string, name: string)
    requires CleanSegment(name)
    ensures Place(p + "/" + name) == Place(p) + [name]
    ensures Normalized(p + "/" + name + "/" + "..") == Normalized(p)
    ensures Place(p) == [] ==> Place(p + "/" + "..") == []
    ensures Normalized(p + "/" + ".") == Normalized(p) && Normalized(p + "/" + "") == Normalized(p)
  {
    hide Place, Spell;
    PlaceFurther(p, name);
    PlaceFurther(p + "/" + name, "..");
    PlaceFurther(p, "..");
    PlaceFurther(p, ".");
    PlaceFurther(p, "");
    assert (Place(p) + [name])[..|Place(p)|] == Place(p);
  }

  /** Two paths have the same canonical form exactly when they lead to the same place. */
  lemma NormalFormIsUnique(p: string, q: string)
    ensures Normalized(p) == Normalized(q) <==> Place(p) == Place(q)
  {
    NormalizeIsIdempotent(p);
    NormalizeIsIdempotent(q);
  }

  /** The result starts with a slash and none of its segments is empty, `.` or `..`. */
  lemma NormalizedIsClean(path: string)
    ensures exists parts :: Clean(parts) && Split(Normalized(path)) == [""] + (if parts == [] then [""] else parts)
  {
    PlaceIsClean(path);
    SpelledPath(Place(path));
  }

  method SplitPath(path: string) returns (segs: seq<string>)
    ensures segs == Split(path)
  {
    segs := [];
    var current := "";
    for i := 0 to |path|
      invariant Split(path[..i]) == segs + [current]
    {
      assert path[..i + 1] == path[..i] + [path[i]];
      SplitSnoc(path[..i], path[i]);
      if path[i] == '/' {
        segs := segs + [current];
        current := "";
      } else {
        current := current + [path[i]];
      }
    }
    assert path[..|path|] == path;
    segs := segs + [current];
  }

  /** The loop over the segments. */
  method WalkSegments(segs: seq<string>) returns (parts: seq<string>)
    ensures parts == WalkAll([], segs)
  {
    parts := [];
    for i := 0 to |segs|
      invariant parts == WalkAll([], segs[..i])
    {
      assert segs[..i + 1][..i] == segs[..i];
      var seg := segs[i];
      if seg == "" || seg == "." {
      } else if seg == ".." {
        if parts != [] {
          parts := parts[..|parts| - 1];
        }
      } else {
        parts := parts + [seg];
      }
    }
    assert segs[..|segs|] == segs;
  }

  /** The loop that writes the result. */
  method JoinParts(parts: seq<string>) returns (out: string)
    ensures out == Joined(parts)
  {
    out := "";
    for i := 0 to |parts|
      invariant out == Joined(parts[..i])
    {
      assert parts[..i + 1][..i] == parts[..i];
      out := out + "/";
      out := out + parts[i];
    }
    assert parts[..|parts|] == parts;
  }

  method Normalize(path: string) returns (out: string)
    ensures out == Normalized(path)
  {
    hide Split, WalkAll, Joined;
    var segs := SplitPath(path);
    var parts := WalkSegments(segs);
    if parts == [] {
      out := "/";
    } else {
      out := JoinParts(parts);
    }
  }

  // ---- resolve ----

  predicate IsAbsolute(path: string) {
    path != "" && path[0] == '/'
  }

  /** The path that is normalised. */
  function Raw(cwd: string, path: string): string {
    if IsAbsolute(path) then path
    else if path == "" then cwd
    else (if cwd != "" && cwd[|cwd| - 1] == '/' then cwd else cwd + "/") + path
  }

  function Resolved(cwd: string, path: string): string {
    Normalized(Raw(cwd, path))
  }

  method Resolve(cwd: string, path: string) returns (out: string)
    ensures out == Resolved(cwd, path)
  {
    var raw: string;
    if path != "" && path[0] == '/' {
      raw := path;
    } else if path == "" {
      raw := cwd;
    } else {
      var base := cwd;
      if base == "" || base[|base| - 1] != '/' {
        base := base + "/";
      }
      raw := base + path;
    }
    out := Normalize(raw);
  }

  lemma EmptySegment(place: seq<string>)
    ensures WalkAll(place, [""]) == place
  {
    assert [""][..0] == [];
  }

  /** Resolving walks on from the current directory, or from the root for an absolute path. */
  lemma ResolveWalks(cwd: string, path: string)
    ensures Place(Resolved(cwd, path)) == WalkAll(if "/" <= path then [] else Place(cwd), Split(path))
  {
    hide Split, WalkAll, Normalized;
    assert "/" <= path <==> IsAbsolute(path);
    NormalizeIsIdempotent(Raw(cwd, path));
    if IsAbsolute(path) {
    } else if path == "" {
      SplitEmpty();
      EmptySegment(Place(cwd));
    } else if cwd != "" && cwd[|cwd| - 1] == '/' {
      var dir := cwd[..|cwd| - 1];
      assert cwd == dir + "/" + "" && Raw(cwd, path) == dir + "/" + path;
      TrailingSlash(dir);
      WalkOn(dir, path);
    } else {
      WalkOn(cwd, path);
    }
  }

  lemma SplitEmpty()
    ensures Split("") == [""]
  {
  }

  lemma WalkOn(dir: string, path: string)
    ensures Place(dir + "/" + path) == WalkAll(Place(dir), Split(path))
  {
    hide Split, WalkAll;
    SplitConcat(dir, path);
    WalkConcat([], Split(dir), Split(path));
  }

  lemma TrailingSlash(dir: string)
    ensures Place(dir + "/" + "") == Place(dir)
  {
    hide WalkAll;
    WalkOn(dir, "");
    EmptySegment(Place(dir));
  }

  /** Resolution composes, `..` past the root included. */
  lemma ResolveComposes(cwd: string, a: string, b: string)
    requires a != "" && b != "" && !IsAbsolute(b)
    ensures Resolved(Resolved(cwd, a), b) == Resolved(cwd, a + "/" + b)
  {
    hide Split, WalkAll, Normalized, Place;
    var both := a + "/" + b;
    ResolveWalks(cwd, a);
    ResolveWalks(Resolved(cwd, a), b);
    ResolveWalks(cwd, both);
    SplitConcat(a, b);
    assert IsAbsolute(both) <==> IsAbsolute(a);
    WalkConcat(if IsAbsolute(a) then [] else Place(cwd), Split(a), Split(b));
    SamePlace(Raw(Resolved(cwd, a), b), Raw(cwd, both));
  }

  lemma SamePlace(p: string, q: string)
    requires Place(Normalized(p)) == Place(Normalized(q))
    ensures Normalized(p) == Normalized(q)
  {
    NormalizeIsIdempotent(p);
    NormalizeIsIdempotent(q);
  }

}
