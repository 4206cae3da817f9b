/** The renaming script script.py (a shell script): each file found is renamed to
    `$(dirname f)/$(basename f | sed -E 's/\.[A-Z]+$/\L&/')` when that differs from its name. */
module ExtensionCase {
  import opened Paths

  /** `[A-Z]`, in the C locale. */
  predicate IsUpper(c: char)
  {
    'A' <= c <= 'Z'
  }

  /** `\L` on one character: capitals become small letters, everything else is kept. */
  function ToLower(c: char): (r: char)
    ensures IsUpper(c) ==> 'a' <= r <= 'z' && r as int == c as int + 32
    ensures !IsUpper(c) ==> r == c
  {
    if IsUpper(c) then (c as int + 32) as char else c
  }

  function LowerAll(s: string): string
  {
    seq(|s|, k requires 0 <= k < |s| => ToLower(s[k]))
  }

  /** `\.[A-Z]+$` matches at position i: a dot, then one or more capitals running to the end. */
  predicate MatchesAt(name: string, i: nat)
  {
    i + 1 < |name| && name[i] == '.' && forall k :: i < k < |name| ==> IsUpper(name[k])
  }

  predicate HasUpperExtension(name: string)
  {
    exists i: nat | i < |name| :: MatchesAt(name, i)
  }

  /** sed tries the pattern at each position from the left and rewrites the first match with `\L&`. */
  function Substitute(name: string, from: nat): string
    requires from <= |name|
    decreases |name| - from
  {
    if from == |name| then name
    else if MatchesAt(name, from) then name[..from] + LowerAll(name[from..])
    else Substitute(name, from + 1)
  }

  /** `sed -E 's/\.[A-Z]+$/\L&/'` on one name. */
  function LowercaseExtension(name: string): string
  {
    Substitute(name, 0)
  }

  /** The pattern can match at one position only: no dot lies inside a run of capitals. */
  lemma MatchUnique(name: string, i: nat, j: nat)
    requires MatchesAt(name, i) && MatchesAt(name, j)
    ensures i == j
  {
  }

  lemma {:induction false} SubstituteFindsMatch(name: string, from: nat, i: nat)
    requires from <= i && MatchesAt(name, i)
    ensures Substitute(name, from) == name[..i] + LowerAll(name[i..])
    decreases i - from
  {
    if from < i {
      if MatchesAt(name, from) {
        MatchUnique(name, from, i);
      }
      SubstituteFindsMatch(name, from + 1, i);
    }
  }

  lemma {:induction false} SubstituteWithoutMatch(name: string, from: nat)
    requires from <= |name| && !HasUpperExtension(name)
    ensures Substitute(name, from) == name
    decreases |name| - from
  {
    if from < |name| {
      assert !MatchesAt(name, from);
      SubstituteWithoutMatch(name, from + 1);
    }
  }

  /** A name ending in a dot and one or more capitals has exactly those capitals lowered; everything up
      to and including that dot is kept (`x.JPG` becomes `x.jpg`). */
  lemma UpperExtensionLowered(stem: string, ext: string)
    requires |ext| > 0 && forall k :: 0 <= k < |ext| ==> IsUpper(ext[k])
    ensures LowercaseExtension(stem + "." + ext) == stem + "." + LowerAll(ext)
  {
    var name := stem + "." + ext;
    assert MatchesAt(name, |stem|) by {
      forall k | |stem| < k < |name| ensures IsUpper(name[k]) {
        assert name[k] == ext[k - |stem| - 1];
      }
    }
    SubstituteFindsMatch(name, 0, |stem|);
    assert name[..|stem|] == stem;
    assert name[|stem|..] == "." + ext;
    assert LowerAll("." + ext) == "." + LowerAll(ext);
  }

  /** A name is changed exactly when it ends in a dot followed by capitals only; a name with no dot,
      an empty last extension, or any other character after its last dot (`a.MP4`, `a.JpG`) is kept. */
  lemma ChangedIffUpperExtension(name: string)
    ensures LowercaseExtension(name) != name <==> HasUpperExtension(name)
  {
    if HasUpperExtension(name) {
      var i: nat :| i < |name| && MatchesAt(name, i);
      SubstituteFindsMatch(name, 0, i);
      var last := |name| - 1;
      assert LowercaseExtension(name)[last] == LowerAll(name[i..])[last - i];
      assert LowercaseExtension(name)[last] != name[last];
    } else {
      SubstituteWithoutMatch(name, 0);
    }
  }

  /** The rewrite keeps the length of the name, and every character is either kept or a capital lowered. */
  lemma LowercaseExtensionShape(name: string)
    ensures |LowercaseExtension(name)| == |name|
    ensures forall k :: 0 <= k < |name| ==>
      LowercaseExtension(name)[k] == name[k] || LowercaseExtension(name)[k] == ToLower(name[k])
  {
    if HasUpperExtension(name) {
      var i: nat :| i < |name| && MatchesAt(name, i);
      SubstituteFindsMatch(name, 0, i);
    } else {
      SubstituteWithoutMatch(name, 0);
    }
  }

  /** Everything up to and including the extension's dot is kept. */
  lemma StemKept(name: string, i: nat)
    requires MatchesAt(name, i)
    ensures |LowercaseExtension(name)| == |name|
    ensures LowercaseExtension(name)[..i + 1] == name[..i + 1]
  {
    SubstituteFindsMatch(name, 0, i);
  }

  /** Renaming an already renamed file changes nothing. */
  lemma Idempotent(name: string)
    ensures LowercaseExtension(LowercaseExtension(name)) == LowercaseExtension(name)
  {
    var r := LowercaseExtension(name);
    if HasUpperExtension(name) {
      var i: nat :| i < |name| && MatchesAt(name, i);
      SubstituteFindsMatch(name, 0, i);
      var last := |name| - 1;
      assert r[last] == ToLower(name[last]);
      assert !IsUpper(r[last]);
      forall j: nat | j < |r| ensures !MatchesAt(r, j) {
        if j + 1 < |r| {
          assert j < last;
        }
      }
      SubstituteWithoutMatch(r, 0);
    } else {
      SubstituteWithoutMatch(name, 0);
    }
  }

  /** POSIX `dirname` of a path that does not end in a slash: drop the last segment and the slashes
      before it; "." when there is no slash, "/" when only slashes remain. */
  function Dirname(path: string): string
  {
    if '/' !in path then "."
    else
      LastSegmentIsTail(path);
      var parent := TrimTrailingSlashes(path[..|path| - |LastSegment(path)| - 1]);
      if parent == "" then "/" else parent
  }

  function TrimTrailingSlashes(s: string): (r: string)
    ensures |r| <= |s| && r == s[..|r|]
    ensures r == "" || r[|r| - 1] != '/'
    // only the trailing slashes are removed
    ensures forall k :: |r| <= k < |s| ==> s[k] == '/'
  {
    if s != [] && s[|s| - 1] == '/' then TrimTrailingSlashes(s[..|s| - 1]) else s
  }

  /** `basename` of a path that does not end in a slash. */
  function Basename(path: string): string
  {
    LastSegment(path)
  }

  /** Line 2: the new name. */
  function NewName(path: string): string
  {
    Dirname(path) + "/" + LowercaseExtension(Basename(path))
  }

  /** Lines 3-5: `mv` runs only when the new name differs. */
  predicate NeedsRename(path: string)
  {
    path != NewName(path)
  }

  /** A path as `find .` prints it: starting with "./", with no doubled slash and no trailing slash. */
  ghost predicate FoundPath(path: string)
  {
    |path| >= 3 && path[..2] == "./" && path[|path| - 1] != '/' &&
    forall i :: 0 < i < |path| ==> !(path[i - 1] == '/' && path[i] == '/')
  }

  /** For a found path, the directory part is kept verbatim and only the last segment is rewritten. */
  lemma DirectoryKept(path: string)
    requires FoundPath(path)
    ensures |LastSegment(path)| < |path|
    ensures var base := LastSegment(path);
      NewName(path) == path[..|path| - |base|] + LowercaseExtension(base)
  {
    LastSegmentIsTail(path);
    var base := LastSegment(path);
    assert path[1] == '/';
    var cut := |path| - |base| - 1;
    assert path[cut] == '/';
    forall k | |path| - |base| <= k < |path| ensures path[k] != '/' {
      assert path[k] == base[k - (|path| - |base|)];
    }
    assert cut >= 1;
    var dir := path[..cut];
    assert dir[|dir| - 1] == path[cut - 1] != '/';
    assert TrimTrailingSlashes(dir) == dir;
    assert dir + "/" == path[..|path| - |base|];
  }

  /** For a found path, `mv` runs exactly when the file name ends in an all-capital extension. */
  lemma RenameGuard(path: string)
    requires FoundPath(path)
    ensures NeedsRename(path) <==> HasUpperExtension(LastSegment(path))
  {
    DirectoryKept(path);
    LastSegmentIsTail(path);
    var base := LastSegment(path);
    ChangedIffUpperExtension(base);
    LowercaseExtensionShape(base);
    assert path == path[..|path| - |base|] + base;
    if LowercaseExtension(base) != base {
      var prefix := path[..|path| - |base|];
      assert NewName(path)[|prefix|..] == LowercaseExtension(base);
    }
  }
}
