/**
 * Windows path text, as `ntpath` and `PureWindowsPath` read it: the cache key the directory
 * cache files its entry under (`os.path.join(dir, "_combined_cache.marker")`), the directory
 * `os.path.dirname` recovers from that key, and the lower-cased `Path(p).suffix` the
 * statistics count. Both `\` and `/` separate; a drive is two characters ending in `:`.
 */
module Paths {
  import opened Text

  predicate IsSep(c: char) {
    c == '\\' || c == '/'
  }

  /** The file name the cache key adds to the directory. */
  const Marker: string := "_combined_cache.marker"

  /** `ntpath.splitdrive` without UNC shares: `X:` when the second character is a colon. */
  function Drive(p: string): (d: string)
    ensures d == [] || (|d| == 2 && d[1] == ':')
    ensures |d| <= |p| && d == p[..|d|]
  {
    if |p| >= 2 && p[1] == ':' then p[..2] else []
  }

  /** The part of `p` after its drive. */
  function AfterDrive(p: string): (q: string)
    ensures p == Drive(p) + q
  {
    p[|Drive(p)|..]
  }

  /** `s.rstrip('\\/')`. */
  function RStripSeps(s: string): (r: string)
    ensures |r| <= |s|
  {
    if s != [] && IsSep(s[|s| - 1]) then RStripSeps(s[..|s| - 1]) else s
  }

  /** `rstrip` removes a tail of separators and leaves none at the end. */
  lemma {:induction false} RStripSepsShape(s: string)
    ensures var r := RStripSeps(s);
      && r == s[..|r|]
      && (forall i | |r| <= i < |s| :: IsSep(s[i]))
      && (r == [] || !IsSep(r[|r| - 1]))
  {
    if s != [] && IsSep(s[|s| - 1]) {
      RStripSepsShape(s[..|s| - 1]);
    }
  }

  /** The last component of `s`: the text after its last separator. */
  function AfterLastSep(s: string): (seg: string)
    ensures |seg| <= |s|
  {
    if s == [] || IsSep(s[|s| - 1]) then []
    else AfterLastSep(s[..|s| - 1]) + [s[|s| - 1]]
  }

  /** The last component is a separator-free tail of `s`, after a separator or at the start. */
  lemma {:induction false} AfterLastSepShape(s: string)
    ensures AfterLastSep(s) == s[|s| - |AfterLastSep(s)|..]
    ensures forall i | 0 <= i < |AfterLastSep(s)| :: !IsSep(AfterLastSep(s)[i])
    ensures AfterLastSep(s) == s || IsSep(s[|s| - |AfterLastSep(s)| - 1])
  {
    if s != [] && !IsSep(s[|s| - 1]) {
      var init, last := s[..|s| - 1], s[|s| - 1];
      AfterLastSepShape(init);
      var seg := AfterLastSep(init);
      assert AfterLastSep(s) == seg + [last];
      forall i | 0 <= i < |seg| + 1
        ensures !IsSep((seg + [last])[i])
      {
        if i < |seg| {
          assert (seg + [last])[i] == seg[i];
        }
      }
      assert s[|s| - |seg| - 1..] == seg + [last] by {
        assert s == init + [last];
        assert init[|init| - |seg|..] + [last] == s[|s| - |seg| - 1..];
      }
      assert seg != init ==> IsSep(s[|s| - |seg| - 2]) by {
        if seg != init {
          assert s[|s| - |seg| - 2] == init[|init| - |seg| - 1];
        }
      }
    }
  }

  /** `os.path.join(dir, "_combined_cache.marker")`: a separator is added unless `dir`, past its drive, is empty or ends in one. */
  function CacheKey(dir: string): (key: string)
    ensures EndsWith(key, Marker)
  {
    dir + JoinSep(dir) + Marker
  }

  /** `os.path.dirname(p)`: the drive and the text before the last component, trailing separators dropped unless only separators remain. */
  function DirName(p: string): string {
    var q := AfterDrive(p);
    var head := q[..|q| - |AfterLastSep(q)|];
    var stripped := RStripSeps(head);
    Drive(p) + (if stripped == [] then head else stripped)
  }

  /** The spelling of a directory with trailing separators dropped (a bare root keeps them). */
  function Canon(dir: string): (c: string)
    ensures Drive(c) == Drive(dir)
  {
    var q := AfterDrive(dir);
    var stripped := RStripSeps(q);
    RStripSepsShape(q);
    var c := Drive(dir) + (if stripped == [] then q else stripped);
    assert |c| >= 2 && Drive(dir) == [] ==> c[1] == q[1];
    c
  }

  lemma CanonIdempotent(dir: string)
    ensures Canon(Canon(dir)) == Canon(dir)
  {
    var c := Canon(dir);
    var q := AfterDrive(dir);
    RStripSepsShape(q);
    RStripSepsShape(RStripSeps(q));
    assert AfterDrive(c) == c[|Drive(dir)|..];
  }

  /** Text without separators after a separator (or at the start) is the last component. */
  lemma {:induction false} AfterLastSepAppend(head: string, tail: string)
    requires head == [] || IsSep(head[|head| - 1])
    requires forall i | 0 <= i < |tail| :: !IsSep(tail[i])
    ensures AfterLastSep(head + tail) == tail
  {
    if tail == [] {
      assert head + tail == head;
    } else {
      var init := tail[..|tail| - 1];
      assert (head + tail)[..|head + tail| - 1] == head + init;
      AfterLastSepAppend(head, init);
      assert tail == init + [tail[|tail| - 1]];
    }
  }

  /** The separator `os.path.join` puts between the directory and the marker. */
  function JoinSep(dir: string): string {
    var q := AfterDrive(dir);
    if q != [] && !IsSep(q[|q| - 1]) then "\\" else ""
  }

  lemma MarkerHasNoSep()
    ensures forall i | 0 <= i < |Marker| :: !IsSep(Marker[i])
    ensures Marker[1] != ':'
  {
  }

  /** The cache key keeps the directory's drive. */
  lemma DriveOfCacheKey(dir: string)
    ensures Drive(CacheKey(dir)) == Drive(dir)
  {
    if |dir| >= 2 {
      DriveOfLongCacheKey(dir);
    } else {
      DriveOfShortCacheKey(dir);
    }
  }

  lemma DriveOfLongCacheKey(dir: string)
    requires |dir| >= 2
    ensures Drive(CacheKey(dir)) == Drive(dir)
  {
    DriveOfLong(dir, JoinSep(dir) + Marker);
    assert CacheKey(dir) == dir + (JoinSep(dir) + Marker);
  }

  /** A directory of fewer than two characters has no drive, and neither has its cache key. */
  lemma DriveOfShortCacheKey(dir: string)
    requires |dir| < 2
    ensures Drive(CacheKey(dir)) == Drive(dir) == []
  {
    var w := dir + JoinSep(dir);
    assert CacheKey(dir) == w + Marker;
    if |w| >= 2 {
      DriveOfLong(w, Marker);
    } else {
      NoDriveBeforeMarker(w);
    }
  }

  /** Text after the first two characters does not change the drive. */
  lemma DriveOfLong(p: string, rest: string)
    requires |p| >= 2
    ensures Drive(p + rest) == Drive(p)
  {
    assert (p + rest)[..2] == p[..2];
  }

  /** At most one character followed by the marker has no drive. */
  lemma NoDriveBeforeMarker(w: string)
    requires |w| <= 1
    ensures Drive(w + Marker) == []
  {
    assert (w + Marker)[1] == Marker[1 - |w|];
  }

  /** Past the drive, the cache key is the directory's text, the separator and the marker. */
  lemma CacheKeyParts(dir: string)
    ensures AfterDrive(CacheKey(dir)) == AfterDrive(dir) + JoinSep(dir) + Marker
  {
    DriveOfCacheKey(dir);
    var d, q := Drive(dir), AfterDrive(dir);
    assert dir == d + q;
    DropPrefix(d, q, JoinSep(dir), Marker);
  }

  /** Dropping the first part of a concatenation of four leaves the other three. */
  lemma DropPrefix(d: string, q: string, t: string, m: string)
    ensures (d + q + t + m)[|d|..] == q + t + m
  {
  }

  /**
   * `os.path.dirname` of the cache key names the directory it was made from: the cache check
   * and the save look at the same directory, however many separators end the spelling.
   */
  lemma DirNameOfCacheKey(dir: string)
    ensures DirName(CacheKey(dir)) == Canon(dir)
  {
    var q, t := AfterDrive(dir), JoinSep(dir);
    DriveOfCacheKey(dir);
    HeadOfCacheKey(dir);
    KeptHead(q, t);
  }

  /** Before its last component, the cache key past its drive is the directory's text and the separator. */
  lemma HeadOfCacheKey(dir: string)
    ensures var k := AfterDrive(CacheKey(dir));
      k[..|k| - |AfterLastSep(k)|] == AfterDrive(dir) + JoinSep(dir)
  {
    var q, t := AfterDrive(dir), JoinSep(dir);
    CacheKeyParts(dir);
    MarkerHasNoSep();
    AfterLastSepAppend(q + t, Marker);
  }

  /** What `dirname` keeps of the head `q + t` is what `Canon` keeps of `q`. */
  lemma KeptHead(q: string, t: string)
    requires t == (if q != [] && !IsSep(q[|q| - 1]) then "\\" else "")
    ensures var h := q + t;
      (if RStripSeps(h) == [] then h else RStripSeps(h))
      == (if RStripSeps(q) == [] then q else RStripSeps(q))
  {
    if t != [] {
      assert RStripSeps(q) == q;
      assert (q + t)[..|q|] == q;
      assert RStripSeps(q + t) == q;
    } else {
      assert q + t == q;
    }
  }

  /** `PurePath(p).name`: the last component, ignoring empty and `.` components. */
  function Name(p: string): (name: string)
    ensures forall i | 0 <= i < |name| :: !IsSep(name[i])
    ensures name != "."
  {
    NameOf(AfterDrive(p))
  }

  function NameOf(q: string): (name: string)
    ensures forall i | 0 <= i < |name| :: !IsSep(name[i])
    ensures name != "."
    decreases |q|
  {
    var seg := AfterLastSep(q);
    AfterLastSepShape(q);
    if seg != [] && seg != "." then seg
    else
      var head := q[..|q| - |seg|];
      if head == [] then [] else NameOf(head[..|head| - 1])
  }

  /** The offset of the last `.` in `s`, or -1 when there is none: `s.rfind('.')`. */
  function RFindDot(s: string): (i: int)
    ensures -1 <= i < |s|
    ensures i >= 0 ==> s[i] == '.'
    ensures forall j | i < j < |s| :: s[j] != '.'
  {
    if s == [] then -1
    else if s[|s| - 1] == '.' then |s| - 1
    else RFindDot(s[..|s| - 1])
  }

  /** `PurePath.suffix` of a file name: from the last dot on, unless that dot is first or last. */
  function Suffix(name: string): string {
    var i := RFindDot(name);
    if 0 < i < |name| - 1 then name[i..] else []
  }

  /** `Path(p).suffix.lower()`, with ASCII lower-casing. */
  function Extension(p: string): string {
    Lower(Suffix(Name(p)))
  }

  /**
   * A non-empty suffix is a dot followed by at least one character, none of them a dot, that
   * ends the name without being all of it.
   */
  lemma SuffixShape(name: string)
    ensures var x := Suffix(name);
      x == [] || (
        && 2 <= |x| < |name| && EndsWith(name, x) && x[0] == '.'
        && forall j | 1 <= j < |x| :: x[j] != '.')
  {
    var i := RFindDot(name);
    if 0 < i < |name| - 1 {
      var x := name[i..];
      assert forall j | 1 <= j < |x| :: x[j] == name[i + j];
    }
  }

  /** A name whose last dot is inside it has that dot's tail as its suffix, and no other. */
  lemma SuffixOfDottedName(stem: string, ext: string)
    requires stem != [] && stem[0] != '.' && ext != [] && forall j | 0 <= j < |ext| :: ext[j] != '.'
    ensures Suffix(stem + "." + ext) == "." + ext
  {
    var name := stem + "." + ext;
    var i := RFindDot(name);
    assert name[|stem|] == '.';
    assert forall j | 0 <= j < |ext| :: name[|stem| + 1 + j] == ext[j];
    assert i == |stem|;
    assert name[i..] == "." + ext;
  }

  /** A name without an inner dot has no suffix: `.bashrc`, `README`, `archive.`. */
  lemma NoSuffixWithoutInnerDot(name: string)
    requires forall j | 0 < j < |name| - 1 :: name[j] != '.'
    ensures Suffix(name) == []
  {
  }

  /** The extension is lower-case, and empty exactly when the suffix is. */
  lemma ExtensionShape(p: string)
    ensures IsLower(Extension(p))
    ensures |Extension(p)| == |Suffix(Name(p))|
  {
    LowerIsLower(Suffix(Name(p)));
  }
}
