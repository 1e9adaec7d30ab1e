/**
 * How the plugin finds a page's file: the modification-time lookup in the
 * user's `pages` directory (with its retry under the other extension), and
 * the regular expression `pages\/(.*)\.(md|org)` that extracts a file name
 * from the path carried by a change event.
 */
module PageFiles {
  import opened Wrappers

  /** The user's preferred page format; it decides which extension is tried first. */
  datatype Format = Markdown | Org

  function Extension(f: Format): string
  {
    if f == Markdown then ".md" else ".org"
  }

  function OtherFormat(f: Format): Format
  {
    if f == Markdown then Org else Markdown
  }

  /** `getFileHandle` rejects a name holding a path separator: a file is
      looked up directly in the directory, never in a subdirectory. */
  predicate PlainName(name: string)
  {
    '/' !in name
  }

  /** getLastUpdatedTime, with the directory handle given as the map from
      each file name in the directory to its `lastModified` time. A failed
      `getFileHandle` (a name missing from the map, or one that is not a
      plain name) falls through to the retry, and then to 0. */
  function LastUpdatedTime(fileName: string, files: map<string, int>, preferred: Format): int
  {
    var first := fileName + Extension(preferred);
    var second := fileName + Extension(OtherFormat(preferred));
    if PlainName(first) && first in files then files[first]
    else if PlainName(second) && second in files then files[second]
    else 0
  }

  /** A name with a path separator has time 0 whatever the directory holds.
      Otherwise the result is 0 exactly when neither file exists (or the file
      found carries time 0), and else the time of the preferred file if that
      exists and of the other one if not. */
  lemma LastUpdatedTimeLookup(fileName: string, files: map<string, int>, preferred: Format)
    ensures '/' in fileName ==> LastUpdatedTime(fileName, files, preferred) == 0
    ensures '/' !in fileName ==>
      var md, org := fileName + ".md", fileName + ".org";
      var t := LastUpdatedTime(fileName, files, preferred);
      && (md !in files && org !in files ==> t == 0)
      && (md in files && (preferred == Markdown || org !in files) ==> t == files[md])
      && (org in files && (preferred == Org || md !in files) ==> t == files[org])
  {
    var first := fileName + Extension(preferred);
    var second := fileName + Extension(OtherFormat(preferred));
    if '/' in fileName {
      var k :| 0 <= k < |fileName| && fileName[k] == '/';
      assert first[k] == '/' && second[k] == '/';
    } else {
      assert PlainName(first) && PlainName(second);
    }
  }

  /** Because the lookup retries with the other extension, the preferred
      format changes the result only when both files exist. */
  lemma FormatMattersOnlyForBoth(fileName: string, files: map<string, int>)
    requires fileName + ".md" !in files || fileName + ".org" !in files
    ensures LastUpdatedTime(fileName, files, Markdown) == LastUpdatedTime(fileName, files, Org)
  {
  }

  // ---------------------------------------------------------------------------
  // The path pattern `pages\/(.*)\.(md|org)`: unanchored, so the leftmost
  // start wins; `(.*)` is greedy and `.` matches anything but a line terminator.

  predicate LineTerminator(c: char)
  {
    c == '\n' || c == '\r' || c == '\U{2028}' || c == '\U{2029}'
  }

  predicate ExtAt(s: string, j: nat)
    requires j <= |s|
  {
    ".md" <= s[j..] || ".org" <= s[j..]
  }

  /** The pattern matches `s` with the capture `s[i+6..j]`. */
  predicate MatchesAt(s: string, i: nat, j: nat)
  {
    i + 6 <= j <= |s| && s[i..i + 6] == "pages/" &&
    (forall k :: i + 6 <= k < j ==> !LineTerminator(s[k])) &&
    ExtAt(s, j)
  }

  /** End of the run of non-terminators starting at `k`. */
  function RunEnd(s: string, k: nat): (e: nat)
    requires k <= |s|
    ensures k <= e <= |s|
    ensures forall m :: k <= m < e ==> !LineTerminator(s[m])
    ensures e < |s| ==> LineTerminator(s[e])
    decreases |s| - k
  {
    if k == |s| || LineTerminator(s[k]) then k else RunEnd(s, k + 1)
  }

  /** The greedy capture: the last position in `[lo, hi]` where an extension starts. */
  function LastExt(s: string, lo: nat, hi: nat): (r: Option<nat>)
    requires hi <= |s|
    ensures r.Some? ==> lo <= r.value <= hi && ExtAt(s, r.value)
    ensures r.Some? ==> forall j :: r.value < j <= hi ==> !ExtAt(s, j)
    ensures r.None? ==> forall j :: lo <= j <= hi ==> !ExtAt(s, j)
    decreases hi
  {
    if hi < lo then None
    else if ExtAt(s, hi) then Some(hi)
    else if hi == lo then None
    else LastExt(s, lo, hi - 1)
  }

  /** The leftmost match starting at or after `i`, as (start, end of capture). */
  function FindMatch(s: string, i: nat): Option<(nat, nat)>
    decreases |s| - i
  {
    if i + 6 > |s| then None
    else if s[i..i + 6] == "pages/" then
      match LastExt(s, i + 6, RunEnd(s, i + 6))
      case Some(j) => Some((i, j))
      case None => FindMatch(s, i + 1)
    else FindMatch(s, i + 1)
  }

  /** `ma[1]` of `path.match(/pages\/(.*)\.(md|org)/)`, or None when it does not match. */
  function PagePathMatch(path: string): Option<string>
  {
    match FindMatch(path, 0)
    case Some((i, j)) => if i + 6 <= j <= |path| then Some(path[i + 6..j]) else None
    case None => None
  }

  /** No match starts at or after `i`. */
  ghost predicate NoMatchFrom(s: string, i: nat)
  {
    forall a: nat, b: nat :: i <= a ==> !MatchesAt(s, a, b)
  }

  /** `(a, b)` is the match JavaScript picks among those starting at or after
      `i`: the leftmost start, then the longest capture. */
  ghost predicate LeftmostLongest(s: string, i: nat, a: nat, b: nat)
  {
    i <= a && MatchesAt(s, a, b) &&
    forall a': nat, b': nat :: i <= a' && MatchesAt(s, a', b') ==> a < a' || (a == a' && b' <= b)
  }

  /** No capture at start `i` can pass the first line terminator after `i + 6`. */
  lemma CaptureWithinRun(s: string, i: nat, b: nat)
    requires i + 6 <= |s| && MatchesAt(s, i, b)
    ensures b <= RunEnd(s, i + 6)
  {
  }

  /** FindMatch is the JavaScript match: leftmost start, then longest capture;
      None exactly when no start and capture end make the pattern match. */
  lemma {:induction false} FindMatchIsLeftmostLongest(s: string, i: nat)
    ensures FindMatch(s, i).Some? ==> LeftmostLongest(s, i, FindMatch(s, i).value.0, FindMatch(s, i).value.1)
    ensures FindMatch(s, i).None? ==> NoMatchFrom(s, i)
    decreases |s| - i
  {
    if i + 6 > |s| {
      assert forall a: nat, b: nat :: i <= a ==> !MatchesAt(s, a, b);
    } else {
      var e := RunEnd(s, i + 6);
      var found := LastExt(s, i + 6, e);
      if s[i..i + 6] == "pages/" && found.Some? {
        forall a': nat, b': nat | i <= a' && MatchesAt(s, a', b')
          ensures i < a' || (i == a' && b' <= found.value)
        {
          if a' == i { CaptureWithinRun(s, i, b'); }
        }
      } else {
        FindMatchIsLeftmostLongest(s, i + 1);
        forall b: nat | MatchesAt(s, i, b) ensures false {
          CaptureWithinRun(s, i, b);
        }
      }
    }
  }

  /** The captured file name is preceded by `pages/`, followed by `.md` or
      `.org`, holds no line terminator, and is the leftmost and then longest
      such capture; None means the path has no such part. */
  lemma PagePathMatchSpec(path: string)
    ensures PagePathMatch(path).Some? ==>
      exists a: nat, b: nat :: LeftmostLongest(path, 0, a, b) && PagePathMatch(path).value == path[a + 6..b]
    ensures PagePathMatch(path).None? <==> NoMatchFrom(path, 0)
  {
    FindMatchIsLeftmostLongest(path, 0);
    var m := FindMatch(path, 0);
    if m.Some? {
      assert MatchesAt(path, m.value.0, m.value.1);
    }
  }
}
