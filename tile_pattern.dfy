/**
  The one regular expression tryParseTileXYZ uses,
      ([0-9]{1,2})/([0-9]+)/([0-9]+)(?:\.mvt|\.vector\.pbf)
  searched for anywhere in the source string, leftmost match first.

  `MatchesAt` says declaratively what a match at a position is; `MatchAt` and
  `Find` are a hand-written scanner for this one pattern, proved to agree with it.
*/
module TilePattern {
  import opened Wrappers
  import opened Decimal

  const Mvt: string := ".mvt"
  const VectorPbf: string := ".vector.pbf"

  /** The three captured groups, in the order they appear: zoom, column, row. */
  datatype Groups = Groups(z: string, x: string, y: string)

  predicate IsExtension(ext: string) {
    ext == Mvt || ext == VectorPbf
  }

  /** Group shapes the pattern admits: one or two digits, then one or more, then one or more. */
  predicate WellFormed(g: Groups) {
    && 1 <= |g.z| <= 2 && AllDigits(g.z)
    && 1 <= |g.x| && AllDigits(g.x)
    && 1 <= |g.y| && AllDigits(g.y)
  }

  /** The text a match with these groups and this extension spans. */
  function Text(g: Groups, ext: string): string {
    g.z + "/" + g.x + "/" + g.y + ext
  }

  /**
    `s` holds a match of the pattern starting at position `i`, with groups `g`. Only
    the characters the match spans matter: whatever precedes or follows them is ignored.
  */
  predicate MatchesAt(s: string, i: nat, g: Groups) {
    && i <= |s|
    && WellFormed(g)
    && (Text(g, Mvt) <= s[i..] || Text(g, VectorPbf) <= s[i..])
  }

  /** No position from `a` up to (not including) `b` holds a match. */
  ghost predicate NoMatchBetween(s: string, a: nat, b: nat) {
    forall j: nat, h: Groups | a <= j < b :: !MatchesAt(s, j, h)
  }

  /** No position at all holds a match. */
  ghost predicate NoMatch(s: string) {
    forall j: nat, h: Groups :: !MatchesAt(s, j, h)
  }

  /** `i` is the leftmost position where `s` holds a match, and `g` are its groups. */
  ghost predicate Leftmost(s: string, i: nat, g: Groups) {
    MatchesAt(s, i, g) && NoMatchBetween(s, 0, i)
  }

  /** The length of the longest run of digits starting at position `i`. */
  function DigitRun(s: string, i: nat): (n: nat)
    requires i <= |s|
    ensures i + n <= |s|
    ensures forall k | i <= k < i + n :: IsDigit(s[k])
    ensures i + n == |s| || !IsDigit(s[i + n])
    decreases |s| - i
  {
    if i < |s| && IsDigit(s[i]) then 1 + DigitRun(s, i + 1) else 0
  }

  /** The extension starting at position `i`, if there is one; `.mvt` is tried first. */
  function ExtensionAt(s: string, i: nat): Option<string>
    requires i <= |s|
  {
    if Mvt <= s[i..] then Some(Mvt)
    else if VectorPbf <= s[i..] then Some(VectorPbf)
    else None
  }

  /**
    The match starting at position `i`, if any. The groups are forced: the zoom group
    is the whole digit run at `i` (it must be followed by '/', so a third digit cannot
    belong to a match starting here), and each of the other two is the whole digit
    run after its slash.
  */
  function MatchAt(s: string, i: nat): Option<Groups>
    requires i <= |s|
  {
    var zn := DigitRun(s, i);
    if zn < 1 || zn > 2 || i + zn == |s| || s[i + zn] != '/' then None
    else
      var xs := i + zn + 1;
      var xn := DigitRun(s, xs);
      if xn < 1 || xs + xn == |s| || s[xs + xn] != '/' then None
      else
        var ys := xs + xn + 1;
        var yn := DigitRun(s, ys);
        if yn < 1 || ExtensionAt(s, ys + yn).None? then None
        else Some(Groups(s[i..i + zn], s[xs..xs + xn], s[ys..ys + yn]))
  }

  /** The leftmost match at or after position `from`, with its position. */
  function FindFrom(s: string, from: nat): Option<(nat, Groups)>
    requires from <= |s|
    decreases |s| - from
  {
    match MatchAt(s, from)
    case Some(g) => Some((from, g))
    case None => if from == |s| then None else FindFrom(s, from + 1)
  }

  /** regexp.FindStringSubmatch for the tile pattern. */
  function Find(s: string): Option<(nat, Groups)> {
    FindFrom(s, 0)
  }

  /** Where each part of a match's text sits. */
  lemma TextLayout(g: Groups, ext: string)
    ensures var w := Text(g, ext);
      var ox := |g.z| + 1;
      var oy := ox + |g.x| + 1;
      var oe := oy + |g.y|;
      && |w| == oe + |ext|
      && w[..|g.z|] == g.z && w[|g.z|] == '/'
      && w[ox..ox + |g.x|] == g.x && w[ox + |g.x|] == '/'
      && w[oy..oe] == g.y && w[oe..] == ext
  {
  }

  lemma SliceSplit(s: string, a: nat, b: nat, c: nat)
    requires a <= b <= c <= |s|
    ensures s[a..c] == s[a..b] + s[b..c]
  {
  }

  lemma SubSlice(s: string, i: nat, w: string, a: nat, b: nat)
    requires i + |w| <= |s| && s[i..i + |w|] == w && a <= b <= |w|
    ensures s[i + a..i + b] == w[a..b]
  {
    forall k | 0 <= k < b - a
      ensures s[i + a..i + b][k] == w[a..b][k]
    {
      assert s[i + a + k] == s[i..i + |w|][a + k];
    }
  }

  /** The pieces of the text between `i` and the end of an extension, glued back together. */
  lemma Assemble(s: string, i: nat, zn: nat, xs: nat, xn: nat, ys: nat, yn: nat, ext: string)
    requires xs == i + zn + 1 && ys == xs + xn + 1 && ys + yn + |ext| <= |s|
    requires s[i + zn] == '/' && s[xs + xn] == '/'
    requires s[ys + yn..ys + yn + |ext|] == ext
    ensures s[i..ys + yn + |ext|] == Text(Groups(s[i..i + zn], s[xs..xs + xn], s[ys..ys + yn]), ext)
  {
    var ye := ys + yn;
    var e := ye + |ext|;
    SliceSplit(s, i, i + zn, xs);
    assert s[i + zn..xs] == "/";
    SliceSplit(s, i, xs, xs + xn);
    SliceSplit(s, i, xs + xn, ys);
    assert s[xs + xn..ys] == "/";
    SliceSplit(s, i, ys, ye);
    SliceSplit(s, i, ye, e);
  }

  /** The pieces of a match's text, read back off the string that holds it. */
  lemma Disassemble(s: string, i: nat, g: Groups, ext: string, xs: nat, ys: nat)
    requires i <= |s| && Text(g, ext) <= s[i..]
    requires xs == i + |g.z| + 1 && ys == xs + |g.x| + 1
    ensures ys + |g.y| + |ext| <= |s|
    ensures s[i..i + |g.z|] == g.z && s[i + |g.z|] == '/'
    ensures s[xs..xs + |g.x|] == g.x && s[xs + |g.x|] == '/'
    ensures s[ys..ys + |g.y|] == g.y && s[ys + |g.y|..ys + |g.y| + |ext|] == ext
  {
    var w := Text(g, ext);
    TextLayout(g, ext);
    assert s[i..i + |w|] == w;
    var zn, xn, yn := |g.z|, |g.x|, |g.y|;
    SubSlice(s, i, w, 0, zn);
    SubSlice(s, i, w, zn + 1, zn + 1 + xn);
    SubSlice(s, i, w, zn + xn + 2, zn + xn + 2 + yn);
    SubSlice(s, i, w, zn + xn + 2 + yn, |w|);
    assert s[i + zn] == s[i..i + |w|][zn];
    assert s[i + zn + 1 + xn] == s[i..i + |w|][zn + 1 + xn];
  }

  lemma PrefixAt(s: string, i: nat, e: nat, w: string)
    requires i <= e <= |s| && s[i..e] == w
    ensures w <= s[i..]
  {
  }

  lemma RunDigits(s: string, i: nat, n: nat)
    requires i <= |s| && n == DigitRun(s, i)
    ensures AllDigits(s[i..i + n])
  {
    var t := s[i..i + n];
    forall k | 0 <= k < |t|
      ensures IsDigit(t[k])
    {
      assert t[k] == s[i + k];
    }
  }

  lemma DigitRunOfSlice(s: string, a: nat, t: string)
    requires a + |t| <= |s| && s[a..a + |t|] == t && AllDigits(t)
    requires a + |t| == |s| || !IsDigit(s[a + |t|])
    ensures DigitRun(s, a) == |t|
  {
    forall k | a <= k < a + |t|
      ensures IsDigit(s[k])
    {
      assert s[k] == s[a..a + |t|][k - a];
    }
  }

  /**
    The checks MatchAt makes from position `i`, with `xs` and `ys` the starts of the
    second and third groups and `zn`, `xn`, `yn` the lengths of the three digit runs.
  */
  predicate Scanned(s: string, i: nat, zn: nat, xs: nat, xn: nat, ys: nat, yn: nat) {
    && xs == i + zn + 1 && ys == xs + xn + 1 && ys + yn <= |s|
    && zn == DigitRun(s, i) && 1 <= zn <= 2 && s[i + zn] == '/'
    && xn == DigitRun(s, xs) && 1 <= xn && s[xs + xn] == '/'
    && yn == DigitRun(s, ys) && 1 <= yn && ExtensionAt(s, ys + yn).Some?
  }

  /** What the scanner returns once its checks pass. */
  lemma ScanResult(s: string, i: nat, zn: nat, xs: nat, xn: nat, ys: nat, yn: nat)
    requires Scanned(s, i, zn, xs, xn, ys, yn)
    ensures MatchAt(s, i) == Some(Groups(s[i..i + zn], s[xs..xs + xn], s[ys..ys + yn]))
  {
  }

  /** The same, for groups already known to be the ones cut out. */
  lemma ScanFinds(s: string, i: nat, g: Groups, xs: nat, ys: nat)
    requires Scanned(s, i, |g.z|, xs, |g.x|, ys, |g.y|)
    requires g == Groups(s[i..i + |g.z|], s[xs..xs + |g.x|], s[ys..ys + |g.y|])
    ensures MatchAt(s, i) == Some(g)
  {
  }

  /** Passing the scanner's checks makes a match. */
  lemma ScannedIsMatch(s: string, i: nat, zn: nat, xs: nat, xn: nat, ys: nat, yn: nat)
    requires Scanned(s, i, zn, xs, xn, ys, yn)
    ensures MatchesAt(s, i, Groups(s[i..i + zn], s[xs..xs + xn], s[ys..ys + yn]))
  {
    var g := Groups(s[i..i + zn], s[xs..xs + xn], s[ys..ys + yn]);
    var ye := ys + yn;
    var ext := ExtensionAt(s, ye).value;
    assert IsExtension(ext) && ext <= s[ye..];
    assert s[ye..ye + |ext|] == ext;
    Assemble(s, i, zn, xs, xn, ys, yn, ext);
    PrefixAt(s, i, ye + |ext|, Text(g, ext));
    RunDigits(s, i, zn);
    RunDigits(s, xs, xn);
    RunDigits(s, ys, yn);
    assert WellFormed(g);
  }

  /** An extension written at `e` is one the scanner finds there, and it starts with a non-digit. */
  lemma ExtensionFound(s: string, e: nat, ext: string)
    requires IsExtension(ext) && e + |ext| <= |s| && s[e..e + |ext|] == ext
    ensures ExtensionAt(s, e).Some? && !IsDigit(s[e])
  {
    PrefixAt(s, e, e + |ext|, ext);
    assert s[e] == s[e..e + |ext|][0];
  }

  /** The pieces of a match, laid out in the string, pass the scanner's checks. */
  lemma PiecesScanned(s: string, i: nat, g: Groups, xs: nat, ys: nat)
    requires WellFormed(g)
    requires xs == i + |g.z| + 1 && ys == xs + |g.x| + 1 && ys + |g.y| < |s|
    requires s[i..i + |g.z|] == g.z && s[i + |g.z|] == '/'
    requires s[xs..xs + |g.x|] == g.x && s[xs + |g.x|] == '/'
    requires s[ys..ys + |g.y|] == g.y
    requires ExtensionAt(s, ys + |g.y|).Some? && !IsDigit(s[ys + |g.y|])
    ensures Scanned(s, i, |g.z|, xs, |g.x|, ys, |g.y|)
  {
    DigitRunOfSlice(s, i, g.z);
    DigitRunOfSlice(s, xs, g.x);
    DigitRunOfSlice(s, ys, g.y);
  }

  /** A match passes every check of the scanner, and its groups are what the scanner cuts out. */
  lemma MatchIsScanned(s: string, i: nat, g: Groups, xs: nat, ys: nat)
    requires MatchesAt(s, i, g)
    requires xs == i + |g.z| + 1 && ys == xs + |g.x| + 1
    ensures Scanned(s, i, |g.z|, xs, |g.x|, ys, |g.y|)
    ensures g == Groups(s[i..i + |g.z|], s[xs..xs + |g.x|], s[ys..ys + |g.y|])
  {
    var ext := if Text(g, Mvt) <= s[i..] then Mvt else VectorPbf;
    Disassemble(s, i, g, ext, xs, ys);
    ExtensionFound(s, ys + |g.y|, ext);
    PiecesScanned(s, i, g, xs, ys);
  }

  /** Every match the scanner reports is a match. */
  lemma MatchAtSound(s: string, i: nat)
    requires i <= |s| && MatchAt(s, i).Some?
    ensures MatchesAt(s, i, MatchAt(s, i).value)
  {
    var zn := DigitRun(s, i);
    var xs := i + zn + 1;
    var xn := DigitRun(s, xs);
    var ys := xs + xn + 1;
    var yn := DigitRun(s, ys);
    assert Scanned(s, i, zn, xs, xn, ys, yn);
    ScanResult(s, i, zn, xs, xn, ys, yn);
    ScannedIsMatch(s, i, zn, xs, xn, ys, yn);
  }

  /** Every match is found by the scanner, with the same groups: at a position, groups are unique. */
  lemma MatchAtComplete(s: string, i: nat, g: Groups)
    requires MatchesAt(s, i, g)
    ensures MatchAt(s, i) == Some(g)
  {
    var xs := i + |g.z| + 1;
    var ys := xs + |g.x| + 1;
    MatchIsScanned(s, i, g, xs, ys);
    ScanFinds(s, i, g, xs, ys);
  }

  lemma NoMatchHere(s: string, i: nat)
    requires i <= |s| && MatchAt(s, i).None?
    ensures NoMatchBetween(s, i, i + 1)
  {
    forall h: Groups
      ensures !MatchesAt(s, i, h)
    {
      if MatchesAt(s, i, h) {
        MatchAtComplete(s, i, h);
        assert false;
      }
    }
  }

  lemma NoMatchJoin(s: string, a: nat, b: nat, c: nat)
    requires a <= b <= c && NoMatchBetween(s, a, b) && NoMatchBetween(s, b, c)
    ensures NoMatchBetween(s, a, c)
  {
  }

  /** Past the end of the string there is nothing to match. */
  lemma NoMatchPastEnd(s: string, j: nat, h: Groups)
    requires MatchesAt(s, j, h)
    ensures j < |s|
  {
    TextLayout(h, Mvt);
    TextLayout(h, VectorPbf);
  }

  lemma {:induction false} FindFromSpec(s: string, from: nat)
    requires from <= |s|
    ensures var r := FindFrom(s, from);
      && (r.Some? ==> from <= r.value.0 && MatchesAt(s, r.value.0, r.value.1)
                      && NoMatchBetween(s, from, r.value.0))
      && (r.None? ==> NoMatchBetween(s, from, |s|))
    decreases |s| - from
  {
    if MatchAt(s, from).Some? {
      MatchAtSound(s, from);
    } else {
      NoMatchHere(s, from);
      if from < |s| {
        FindFromSpec(s, from + 1);
        var r := FindFrom(s, from + 1);
        NoMatchJoin(s, from, from + 1, if r.Some? then r.value.0 else |s|);
      }
    }
  }

  /**
    Find reports the leftmost match and its groups, and reports nothing exactly when
    no position of the string holds a match.
  */
  lemma FindSpec(s: string)
    ensures Find(s).Some? ==> Leftmost(s, Find(s).value.0, Find(s).value.1)
    ensures Find(s).None? <==> NoMatch(s)
  {
    FindFromSpec(s, 0);
    if Find(s).None? {
      forall j: nat, h: Groups
        ensures !MatchesAt(s, j, h)
      {
        if MatchesAt(s, j, h) {
          NoMatchPastEnd(s, j, h);
          assert false;
        }
      }
    } else {
      var (i, g) := Find(s).value;
      assert MatchesAt(s, i, g);
    }
  }

  /** A leftmost match is the one Find reports. */
  lemma FindLeftmost(s: string, i: nat, g: Groups)
    requires Leftmost(s, i, g)
    ensures Find(s) == Some((i, g))
  {
    FindSpec(s);
    var (i', g') := Find(s).value;
    assert i' == i;
    MatchAtComplete(s, i, g);
    MatchAtComplete(s, i, g');
  }
  /** A match is found in the same place whatever is put before the string. */
  lemma MatchesAtShift(p: string, s: string, j: nat, g: Groups)
    ensures MatchesAt(p + s, |p| + j, g) <==> MatchesAt(s, j, g)
  {
    if j <= |s| {
      assert (p + s)[|p| + j..] == s[j..];
    }
  }

  /** Every match starts with a digit, so none starts inside a digit-free prefix. */
  lemma NoMatchInDigitFree(p: string, s: string, j: nat, h: Groups)
    requires forall k | 0 <= k < |p| :: !IsDigit(p[k])
    requires j < |p|
    ensures !MatchesAt(p + s, j, h)
  {
    var t := (p + s)[j..];
    assert t[0] == p[j];
    if WellFormed(h) {
      assert Text(h, Mvt)[0] == h.z[0] && Text(h, VectorPbf)[0] == h.z[0];
    }
  }

  /** A digit-free prefix adds no match, and moves every match of `s` past itself. */
  lemma NoMatchBeforeShift(p: string, s: string, b: nat)
    requires forall k | 0 <= k < |p| :: !IsDigit(p[k])
    requires NoMatchBetween(s, 0, b)
    ensures NoMatchBetween(p + s, 0, |p| + b)
  {
    forall j: nat, h: Groups | j < |p| + b
      ensures !MatchesAt(p + s, j, h)
    {
      if j < |p| {
        NoMatchInDigitFree(p, s, j, h);
      } else {
        MatchesAtShift(p, s, j - |p|, h);
      }
    }
  }

  lemma NoMatchShift(p: string, s: string)
    requires forall k | 0 <= k < |p| :: !IsDigit(p[k])
    requires NoMatch(s)
    ensures NoMatch(p + s)
  {
    forall j: nat, h: Groups
      ensures !MatchesAt(p + s, j, h)
    {
      if j < |p| {
        NoMatchInDigitFree(p, s, j, h);
      } else {
        MatchesAtShift(p, s, j - |p|, h);
      }
    }
  }

  /**
    Putting a string without digits (a scheme and host name, say) in front of the
    source does not change the match found, only its position.
  */
  lemma FindAfterDigitFreePrefix(p: string, s: string)
    requires forall k | 0 <= k < |p| :: !IsDigit(p[k])
    ensures Find(s).Some? ==> Find(p + s) == Some((|p| + Find(s).value.0, Find(s).value.1))
    ensures Find(s).None? ==> Find(p + s).None?
  {
    FindSpec(s);
    if Find(s).Some? {
      var (i, g) := Find(s).value;
      MatchesAtShift(p, s, i, g);
      NoMatchBeforeShift(p, s, i);
      FindLeftmost(p + s, |p| + i, g);
    } else {
      NoMatchShift(p, s);
      FindSpec(p + s);
    }
  }

  /** The extension a match at `i` ends with (.mvt is tried first). */
  function ExtensionOf(s: string, i: nat, g: Groups): (ext: string)
    requires MatchesAt(s, i, g)
    ensures IsExtension(ext) && Text(g, ext) <= s[i..]
  {
    if Text(g, Mvt) <= s[i..] then Mvt else VectorPbf
  }

  /** Where the extension starts within a match's text. */
  function ExtOffset(g: Groups): nat {
    |g.z| + 1 + |g.x| + 1 + |g.y|
  }

  /** A match's text is digits and slashes, starting with a digit, then the extension. */
  lemma TextChars(g: Groups, ext: string)
    requires WellFormed(g)
    ensures |Text(g, ext)| == ExtOffset(g) + |ext|
    ensures IsDigit(Text(g, ext)[0])
    ensures forall k | 0 <= k < ExtOffset(g) :: IsDigit(Text(g, ext)[k]) || Text(g, ext)[k] == '/'
    ensures forall k | ExtOffset(g) <= k < |Text(g, ext)| :: Text(g, ext)[k] == ext[k - ExtOffset(g)]
  {
    TextLayout(g, ext);
    var w := Text(g, ext);
    var ox := |g.z| + 1;
    var oy := ox + |g.x| + 1;
    var oe := oy + |g.y|;
    assert w[0] == w[..|g.z|][0];
    forall k | 0 <= k < oe
      ensures IsDigit(w[k]) || w[k] == '/'
    {
      if k < |g.z| {
        assert w[k] == w[..|g.z|][k];
      } else if ox <= k < ox + |g.x| {
        assert w[k] == w[ox..ox + |g.x|][k - ox];
      } else if oy <= k {
        assert w[k] == w[oy..oe][k - oy];
      }
    }
    forall k | oe <= k < |w|
      ensures w[k] == ext[k - oe]
    {
      assert w[k] == w[oe..][k - oe];
    }
  }

  /** The characters of `s` a match at `i` spans, position by position. */
  lemma MatchChars(s: string, i: nat, g: Groups)
    requires MatchesAt(s, i, g)
    ensures var ext := ExtensionOf(s, i, g); var p := i + ExtOffset(g);
      && p + |ext| <= |s|
      && IsDigit(s[i])
      && (forall k | i <= k < p :: IsDigit(s[k]) || s[k] == '/')
      && (forall k | p <= k < p + |ext| :: s[k] == ext[k - p])
  {
    var ext := ExtensionOf(s, i, g);
    var w := Text(g, ext);
    TextChars(g, ext);
    assert s[i..][..|w|] == w;
    forall k | i <= k < i + |w|
      ensures s[k] == w[k - i]
    {
      assert s[k] == s[i..][..|w|][k - i];
    }
  }

  /** No character of either extension is a digit or a slash, and they differ at their second. */
  lemma ExtensionChars(ext: string)
    requires IsExtension(ext)
    ensures |ext| >= 2 && ext[0] == '.'
    ensures forall m | 0 <= m < |ext| :: !IsDigit(ext[m]) && ext[m] != '/'
    ensures ext[1] == (if ext == Mvt then 'm' else 'v')
  {
  }

  /**
    A match that starts before a match lying within `s` also lies within `s`: its
    digits and slashes cannot run across the later match's extension, and its own
    extension cannot cover the later match's first digit.
  */
  lemma EarlierMatchEndsInside(s: string, t: string, i: nat, g: Groups, j: nat, h: Groups)
    requires MatchesAt(s, i, g) && j < i
    ensures MatchesAt(s + t, j, h) ==> MatchesAt(s, j, h)
  {
    if MatchesAt(s + t, j, h) {
      var u := s + t;
      var eg := ExtensionOf(s, i, g);
      var eh := ExtensionOf(u, j, h);
      var pg := i + ExtOffset(g);
      var ph := j + ExtOffset(h);
      MatchChars(s, i, g);
      MatchChars(u, j, h);
      ExtensionChars(eg);
      ExtensionChars(eh);
      assert u[i] == s[i];
      assert ph + |eh| <= |s| by {
        if i < ph + |eh| {
          assert i <= ph;
          assert u[ph] == '.' && u[pg] == s[pg] == '.';
          assert ph == pg;
          assert u[ph + 1] == eh[1] && u[pg + 1] == s[pg + 1] == eg[1];
          assert eh == eg;
        }
      }
      var w := Text(h, eh);
      TextChars(h, eh);
      assert u[j..][..|w|] == w;
      assert s[j..j + |w|] == u[j..][..|w|];
      PrefixAt(s, j, j + |w|, w);
    }
  }

  /**
    Once the source holds a match, whatever follows it is ignored: the match found
    and its position stay the same.
  */
  lemma FindIgnoresSuffix(s: string, t: string)
    requires Find(s).Some?
    ensures Find(s + t) == Find(s)
  {
    FindSpec(s);
    var (i, g) := Find(s).value;
    assert (s + t)[i..] == s[i..] + t;
    assert MatchesAt(s + t, i, g);
    forall j: nat, h: Groups | j < i
      ensures !MatchesAt(s + t, j, h)
    {
      EarlierMatchEndsInside(s, t, i, g, j, h);
    }
    FindLeftmost(s + t, i, g);
  }
}
