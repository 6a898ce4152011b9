/**
 * The pure helpers of the test file-utilities: the frontmatter reader, the
 * numeric-prefix test, the parent-directory name, the extension test and
 * the source-file filter. The filesystem reads that feed them are not
 * modelled; the filter is applied to a given list of paths.
 */
module FileUtils {
  import opened Wrappers
  import opened Text

  // ---------------------------------------------------------------------
  // Frontmatter: /^---\n([\s\S]*?)\n---/ and the line loop
  // ---------------------------------------------------------------------

  const OpenFence: string := "---\n"
  const CloseFence: string := "\n---"

  /** The pattern can match with its lazy group ending at index k of content. */
  predicate ClosesAt(content: string, k: nat) {
    && StartsWith(content, OpenFence)
    && |OpenFence| <= k <= |content|
    && StartsWith(content[k..], CloseFence)
  }

  /** The first position at or after from where pat occurs in s, if any. */
  function FindFrom(s: string, pat: string, from: nat): (r: Option<nat>)
    requires from <= |s|
    ensures r.Some? ==> from <= r.value <= |s| && StartsWith(s[r.value..], pat)
    ensures r.Some? ==> forall k :: from <= k < r.value ==> !StartsWith(s[k..], pat)
    ensures r.None? ==> forall k :: from <= k <= |s| ==> !StartsWith(s[k..], pat)
    decreases |s| - from
  {
    if StartsWith(s[from..], pat) then Some(from)
    else if from == |s| then None
    else FindFrom(s, pat, from + 1)
  }

  /**
   * The capture group of the frontmatter pattern: None when the content does
   * not start with "---\n" followed somewhere by "\n---"; otherwise the text
   * between the opening fence and the FIRST closing fence after it.
   */
  function FrontmatterBlock(content: string): (r: Option<string>)
    ensures r.Some? <==> exists k :: ClosesAt(content, k)
    ensures r.Some? ==>
      var k := |OpenFence| + |r.value|;
      && ClosesAt(content, k)
      && content[|OpenFence|..k] == r.value
      && forall j :: |OpenFence| <= j < k ==> !ClosesAt(content, j)
  {
    if !StartsWith(content, OpenFence) then
      None
    else
      match FindFrom(content, CloseFence, |OpenFence|)
      case None => None
      case Some(k) =>
        assert ClosesAt(content, k);
        assert |content[|OpenFence|..k]| == k - |OpenFence|;
        Some(content[|OpenFence|..k])
  }

  /** A line adds an entry exactly when its first colon is not its first character. */
  predicate HasEntry(line: string) {
    IndexOf(line, ':') > 0
  }

  /** The trimmed text before the first colon. */
  function KeyOf(line: string): (key: string)
    requires HasEntry(line)
    ensures IsTrimmed(key) && ':' !in key
  {
    Trim(line[..IndexOf(line, ':')])
  }

  /** The trimmed text after the first colon; it may contain further colons. */
  function ValueOf(line: string): (value: string)
    requires HasEntry(line)
    ensures IsTrimmed(value)
  {
    Trim(line[IndexOf(line, ':') + 1..])
  }

  /** A line "key:value" whose key is non-empty and colon-free adds the trimmed key and the whole trimmed value, colons included. */
  lemma EntryOfKeyValue(k: string, v: string)
    requires k != [] && ':' !in k
    ensures var line := k + ":" + v;
      HasEntry(line) && KeyOf(line) == Trim(k) && ValueOf(line) == Trim(v)
  {
    var line := k + ":" + v;
    assert line[..|k|] == k && line[|k|] == ':';
    IndexOfIs(line, ':', |k|);
    assert line[|k| + 1..] == v;
  }

  /** What a line adds to the dictionary: its key and value, or nothing. */
  function LineEntry(line: string): (e: Option<(string, string)>)
    ensures e.Some? <==> HasEntry(line)
    ensures e.Some? ==> IsTrimmed(e.value.0) && ':' !in e.value.0 && IsTrimmed(e.value.1)
  {
    if HasEntry(line) then Some((KeyOf(line), ValueOf(line))) else None
  }

  /** One pass of the loop body: an entry sets its key to its value, no entry changes nothing. */
  function Put(frontmatter: map<string, string>, e: Option<(string, string)>): map<string, string> {
    match e
    case None => frontmatter
    case Some((key, value)) => frontmatter[key := value]
  }

  /**
   * The dictionary a loop leaves behind when each line adds entry(line):
   * a left fold in which a later entry overwrites an earlier one.
   */
  function CollectWith(entry: string -> Option<(string, string)>, lines: seq<string>): map<string, string> {
    if lines == [] then map[]
    else Put(CollectWith(entry, lines[..|lines| - 1]), entry(lines[|lines| - 1]))
  }

  /** The dictionary the line loop of extractFrontmatter leaves behind. */
  function Collect(lines: seq<string>): map<string, string> {
    CollectWith(LineEntry, lines)
  }

  /** What extractFrontmatter returns: None for null, else the dictionary built from the block's lines. */
  function Frontmatter(content: string): Option<map<string, string>> {
    match FrontmatterBlock(content)
    case None => None
    case Some(block) => Some(Collect(Split(block, '\n')))
  }

  /**
   * extractFrontmatter: match the block, split it into lines, and fill the
   * dictionary line by line, a later key overwriting an earlier one.
   */
  method ExtractFrontmatter(content: string) returns (r: Option<map<string, string>>)
    ensures r == Frontmatter(content)
    ensures r.Some? ==> EntriesTrimmed(r.value)
  {
    var block := FrontmatterBlock(content);
    if block.None? {
      return None;
    }
    var lines := Split(block.value, '\n');
    var frontmatter: map<string, string> := map[];
    var i := 0;
    while i < |lines|
      invariant 0 <= i <= |lines|
      invariant frontmatter == Collect(lines[..i])
    {
      var line := lines[i];
      var colonIndex := IndexOf(line, ':');
      CollectStep(lines, i);
      if colonIndex > 0 {
        var key := Trim(line[..colonIndex]);
        var value := Trim(line[colonIndex + 1..]);
        assert LineEntry(line) == Some((key, value));
        frontmatter := frontmatter[key := value];
      } else {
        assert LineEntry(line) == None;
      }
      i := i + 1;
    }
    assert lines[..|lines|] == lines;
    CollectEntriesTrimmed(lines);
    r := Some(frontmatter);
  }

  /** The entry e is for key. */
  predicate EntryFor(e: Option<(string, string)>, key: string) {
    e.Some? && e.value.0 == key
  }

  /** One step of the fold: the dictionary after line i is the one before it with line i's entry put in. */
  lemma CollectStep(lines: seq<string>, i: nat)
    requires i < |lines|
    ensures Collect(lines[..i + 1]) == Put(Collect(lines[..i]), LineEntry(lines[i]))
  {
    assert lines[..i + 1][..i] == lines[..i];
  }

  /** The keys after a Put: the old keys and the entry's own key. */
  lemma PutKeys(frontmatter: map<string, string>, e: Option<(string, string)>, key: string)
    ensures key in Put(frontmatter, e) <==> key in frontmatter || EntryFor(e, key)
    ensures key in Put(frontmatter, e) ==>
      Put(frontmatter, e)[key] == if EntryFor(e, key) then e.value.1 else frontmatter[key]
  {
  }

  /** Some line of lines has an entry for key. */
  predicate SomeEntryFor(entry: string -> Option<(string, string)>, lines: seq<string>, key: string) {
    exists i :: 0 <= i < |lines| && EntryFor(entry(lines[i]), key)
  }

  /** An entry for key occurs in a non-empty list exactly when it occurs before the last line or on it. */
  lemma SomeEntryForLast(entry: string -> Option<(string, string)>, lines: seq<string>, key: string)
    requires lines != []
    ensures SomeEntryFor(entry, lines, key) <==>
      SomeEntryFor(entry, lines[..|lines| - 1], key) || EntryFor(entry(lines[|lines| - 1]), key)
  {
    var n := |lines| - 1;
    var init := lines[..n];
    if SomeEntryFor(entry, lines, key) && !EntryFor(entry(lines[n]), key) {
      var i :| 0 <= i < |lines| && EntryFor(entry(lines[i]), key);
      assert init[i] == lines[i];
    }
    if SomeEntryFor(entry, init, key) {
      var i :| 0 <= i < |init| && EntryFor(entry(init[i]), key);
      assert lines[i] == init[i];
    }
  }

  /** Every key of the folded dictionary comes from some line's entry, and every entry's key is in it. */
  lemma {:induction false} CollectWithKeys(entry: string -> Option<(string, string)>, lines: seq<string>, key: string)
    ensures key in CollectWith(entry, lines) <==> SomeEntryFor(entry, lines, key)
  {
    if lines != [] {
      var n := |lines| - 1;
      CollectWithKeys(entry, lines[..n], key);
      PutKeys(CollectWith(entry, lines[..n]), entry(lines[n]), key);
      SomeEntryForLast(entry, lines, key);
    }
  }

  /** In the folded dictionary, the entry of the LAST line with a given key wins. */
  lemma {:induction false} CollectWithLastWins(entry: string -> Option<(string, string)>, lines: seq<string>, i: nat, key: string)
    requires i < |lines| && EntryFor(entry(lines[i]), key)
    requires forall j :: i < j < |lines| ==> !EntryFor(entry(lines[j]), key)
    ensures key in CollectWith(entry, lines) && CollectWith(entry, lines)[key] == entry(lines[i]).value.1
  {
    var n := |lines| - 1;
    var init := lines[..n];
    PutKeys(CollectWith(entry, init), entry(lines[n]), key);
    if i < n {
      assert init[i] == lines[i];
      forall j | i < j < |init| ensures !EntryFor(entry(init[j]), key) {
        assert init[j] == lines[j];
      }
      CollectWithLastWins(entry, init, i, key);
    }
  }

  /** Every binding of the folded dictionary is the entry of some line. */
  lemma {:induction false} CollectWithBindings(entry: string -> Option<(string, string)>, lines: seq<string>, key: string)
    requires key in CollectWith(entry, lines)
    ensures exists i :: 0 <= i < |lines| && entry(lines[i]) == Some((key, CollectWith(entry, lines)[key]))
  {
    var n := |lines| - 1;
    var init := lines[..n];
    PutKeys(CollectWith(entry, init), entry(lines[n]), key);
    if !EntryFor(entry(lines[n]), key) {
      CollectWithBindings(entry, init, key);
      var i :| 0 <= i < |init| && entry(init[i]) == Some((key, CollectWith(entry, init)[key]));
      assert lines[i] == init[i];
    } else {
      assert entry(lines[n]) == Some((key, CollectWith(entry, lines)[key]));
    }
  }

  /**
   * A key is in the frontmatter dictionary exactly when some line's first
   * colon is at an index above 0 and the trimmed text before it is the key.
   */
  lemma CollectKeys(lines: seq<string>, key: string)
    ensures key in Collect(lines) <==> exists i :: 0 <= i < |lines| && HasEntry(lines[i]) && KeyOf(lines[i]) == key
  {
    CollectWithKeys(LineEntry, lines, key);
    if key in Collect(lines) {
      var i :| 0 <= i < |lines| && EntryFor(LineEntry(lines[i]), key);
    } else {
      forall i | 0 <= i < |lines| && HasEntry(lines[i]) ensures KeyOf(lines[i]) != key {
        assert !EntryFor(LineEntry(lines[i]), key);
      }
    }
  }

  /** For a repeated key, the value from the LAST line carrying that key is the one kept. */
  lemma CollectLastWins(lines: seq<string>, i: nat)
    requires i < |lines| && HasEntry(lines[i])
    requires forall j :: i < j < |lines| && HasEntry(lines[j]) ==> KeyOf(lines[j]) != KeyOf(lines[i])
    ensures KeyOf(lines[i]) in Collect(lines) && Collect(lines)[KeyOf(lines[i])] == ValueOf(lines[i])
  {
    var key := KeyOf(lines[i]);
    forall j | i < j < |lines| ensures !EntryFor(LineEntry(lines[j]), key) {
    }
    CollectWithLastWins(LineEntry, lines, i, key);
  }

  /** Every key and value of the dictionary is trimmed, and no key contains a colon. */
  predicate EntriesTrimmed(frontmatter: map<string, string>) {
    forall key :: key in frontmatter ==> IsTrimmed(key) && ':' !in key && IsTrimmed(frontmatter[key])
  }

  /** Every key and value of the frontmatter dictionary is trimmed, and no key contains a colon. */
  lemma CollectEntriesTrimmed(lines: seq<string>)
    ensures EntriesTrimmed(Collect(lines))
  {
    forall key | key in Collect(lines)
      ensures IsTrimmed(key) && ':' !in key && IsTrimmed(Collect(lines)[key])
    {
      CollectWithBindings(LineEntry, lines, key);
    }
  }

  /** Lines that add no entry (no colon, or a colon first) leave the dictionary as it is. */
  lemma CollectSkipsNonEntries(lines: seq<string>, line: string)
    requires !HasEntry(line)
    ensures Collect(lines + [line]) == Collect(lines)
  {
    assert (lines + [line])[..|lines|] == lines;
  }

  /** "---\n---" has no frontmatter: the opening newline cannot also start the closing fence. */
  lemma SharedNewlineIsNoBlock()
    ensures Frontmatter("---\n---") == None
  {
    var s := "---\n---";
    forall k | |OpenFence| <= k <= |s| ensures !StartsWith(s[k..], CloseFence) {
      assert |s[k..]| < |CloseFence|;
    }
  }

  /** A block that closes at k, and at no earlier position, is the text between the fences. */
  lemma BlockClosesAt(content: string, k: nat)
    requires ClosesAt(content, k)
    requires forall j :: |OpenFence| <= j < k ==> !ClosesAt(content, j)
    ensures FrontmatterBlock(content) == Some(content[|OpenFence|..k])
  {
    var r := FrontmatterBlock(content);
    var k' := |OpenFence| + |r.value|;
    assert k' <= k;
    assert k' == k;
  }

  /** The closing fence starts with a newline, so no stretch without one holds its start. */
  lemma NoCloseWithoutNewline(content: string, from: nat, k: nat)
    requires from <= k <= |content| && '\n' !in content[from..k]
    ensures forall j :: from <= j < k ==> !ClosesAt(content, j)
  {
    forall j | from <= j < k ensures !ClosesAt(content, j) {
      assert content[j] == content[from..k][j - from];
      assert |content[j..]| >= |CloseFence| ==> content[j..][..|CloseFence|][0] == content[j];
    }
  }

  /** The closing fence is the first "\n---" after the opening one, not the last. */
  lemma ShortestBlock(s: string)
    requires s == "---\na: 1\n---\nb: 2\n---"
    ensures FrontmatterBlock(s) == Some("a: 1")
  {
    assert s[..4] == OpenFence;
    assert s[8..][..4] == CloseFence;
    assert s[4..8] == "a: 1";
    NoCloseWithoutNewline(s, 4, 8);
    BlockClosesAt(s, 8);
  }

  // ---------------------------------------------------------------------
  // hasNumericPrefix: /^\d+\./
  // ---------------------------------------------------------------------

  /** The number of ASCII digits s starts with. */
  function LeadingDigits(s: string): (n: nat)
    ensures n <= |s| && AllDigits(s[..n])
    ensures n == |s| || !IsDigit(s[n])
  {
    if s != [] && IsDigit(s[0]) then
      var n := 1 + LeadingDigits(s[1..]);
      assert s[..n] == [s[0]] + s[1..][..n - 1];
      n
    else
      0
  }

  /** True exactly when filename starts with one or more ASCII digits immediately followed by '.'. */
  function HasNumericPrefix(filename: string): (b: bool)
    ensures b <==> exists n :: 0 < n < |filename| && AllDigits(filename[..n]) && filename[n] == '.'
  {
    var n := LeadingDigits(filename);
    if 0 < n < |filename| && filename[n] == '.' then
      true
    else
      assert forall m :: 0 < m < |filename| && AllDigits(filename[..m]) && filename[m] == '.' ==> m == n by {
        forall m | 0 < m < |filename| && AllDigits(filename[..m]) && filename[m] == '.' ensures m == n {
        }
      }
      false
  }

  // ---------------------------------------------------------------------
  // getParentDirName: parts[parts.length - 2] || ''
  // ---------------------------------------------------------------------

  /**
   * The second-to-last '/'-separated segment, or "" when there are fewer
   * than two segments (an out-of-range index is undefined, which is falsy).
   */
  function ParentDirName(filePath: string): (r: string)
    ensures '/' !in r
    ensures '/' !in filePath ==> r == ""
  {
    var parts := Split(filePath, '/');
    if |parts| >= 2 then parts[|parts| - 2]
    else
      JoinSplit(filePath, '/');
      ""
  }

  /** A path built from '/'-free segments has the second-to-last segment as its parent name. */
  lemma ParentDirOfSegments(segments: seq<string>)
    requires |segments| >= 2
    requires forall i :: 0 <= i < |segments| ==> '/' !in segments[i]
    ensures ParentDirName(Join(segments, '/')) == segments[|segments| - 2]
  {
    SplitJoin(segments, '/');
    ParentDirOfSplit(Join(segments, '/'), segments);
  }

  /** The parent name is the second-to-last piece of the split. */
  lemma ParentDirOfSplit(path: string, parts: seq<string>)
    requires Split(path, '/') == parts && |parts| >= 2
    ensures ParentDirName(path) == parts[|parts| - 2]
  {
    var r := ParentDirName(path);
    assert r == parts[|parts| - 2];
  }

  // ---------------------------------------------------------------------
  // extname (Node's posix rule) and hasExtension
  // ---------------------------------------------------------------------

  /** The path without its trailing '/' characters. */
  function DropTrailingSlashes(p: string): (r: string)
    ensures |r| <= |p| && r == p[..|r|]
    ensures forall i :: |r| <= i < |p| ==> p[i] == '/'
    ensures r == [] || r[|r| - 1] != '/'
  {
    if p != [] && p[|p| - 1] == '/' then DropTrailingSlashes(p[..|p| - 1]) else p
  }

  /** The last portion of the path: what follows the last '/' once trailing '/' are ignored. */
  function LastPortion(p: string): (r: string)
    ensures '/' !in r
  {
    var q := DropTrailingSlashes(p);
    q[LastIndexOf(q, '/') + 1..]
  }

  /**
   * path.extname: from the last '.' of the last portion to its end; "" when
   * that portion has no '.', when its only '.' is its first character, or
   * when the portion is "..".
   */
  function Extname(path: string): (r: string)
    ensures r == [] || (r[0] == '.' && '.' !in r[1..] && '/' !in r)
  {
    PortionExtension(LastPortion(path))
  }

  /**
   * hasExtension: the extension of the path is exactly ext. Only "" or a
   * '/'-free text with one '.', at its start, can match.
   */
  predicate HasExtension(filePath: string, ext: string): (b: bool)
    ensures b ==> ext == [] || (ext[0] == '.' && '.' !in ext[1..] && '/' !in ext)
  {
    Extname(filePath) == ext
  }

  /** ".." is a directory reference, not a name with an extension. */
  lemma DotDotHasNoExtension()
    ensures Extname("..") == ""
  {
    var p := "..";
    assert DropTrailingSlashes(p) == p && '/' !in p;
    assert LastPortion(p) == p;
  }

  /** A trailing '.' is an extension of its own. */
  lemma TrailingDotIsExtension()
    ensures Extname("index.") == "."
  {
    var p := "index.";
    assert DropTrailingSlashes(p) == p && '/' !in p;
    assert LastPortion(p) == p;
    LastIndexOfIs(p, '.', 5);
  }

  /** Trailing '/' are ignored: the extension is that of the last named portion. */
  lemma TrailingSlashIgnored()
    ensures Extname("a/b.ts/") == ".ts"
  {
    assert DropTrailingSlashes("a/b.ts/") == "a/b.ts";
    LastIndexOfIs("a/b.ts", '/', 1);
    LastIndexOfIs("b.ts", '.', 1);
  }

  /** The last portion of a directory prefix (empty or ending in '/') followed by a '/'-free name is that name. */
  lemma LastPortionOfFileName(dir: string, name: string)
    requires dir == [] || dir[|dir| - 1] == '/'
    requires name != [] && '/' !in name
    ensures LastPortion(dir + name) == name
  {
    var p := dir + name;
    assert p[|p| - 1] == name[|name| - 1];
    assert DropTrailingSlashes(p) == p;
    if dir == [] {
      assert p == name;
    } else {
      assert p[|dir|..] == name;
      LastIndexOfIs(p, '/', |dir| - 1);
    }
  }

  /** Node's rule on the last portion itself. */
  function PortionExtension(base: string): (r: string)
    ensures r == [] || (r[0] == '.' && '.' !in r[1..] && '/' !in r)
    requires '/' !in base
  {
    var d := LastIndexOf(base, '.');
    if d <= 0 || base == ".." then "" else base[d..]
  }

  /** The extension of a name stem + "." + e, with no '.' in e, is "." + e. */
  lemma PortionExtensionOfName(stem: string, e: string)
    requires stem != [] && '/' !in stem
    requires '/' !in e && '.' !in e && e != []
    ensures PortionExtension(stem + ("." + e)) == "." + e
  {
    var name := stem + ("." + e);
    assert name[|stem| + 1..] == e;
    LastIndexOfIs(name, '.', |stem|);
  }

  /**
   * For a directory prefix (empty or ending in '/') and a file name
   * stem + "." + e with no '/' and no '.' in e, the extension is "." + e.
   */
  lemma ExtnameOfFileName(dir: string, stem: string, e: string)
    requires dir == [] || dir[|dir| - 1] == '/'
    requires stem != [] && '/' !in stem
    requires '/' !in e && '.' !in e && e != []
    ensures Extname(dir + (stem + ("." + e))) == "." + e
  {
    LastPortionOfFileName(dir, stem + ("." + e));
    PortionExtensionOfName(stem, e);
  }

  /** A file name without '.' (such as "Makefile") in any directory has no extension. */
  lemma NoDotNoExtension(dir: string, name: string)
    requires dir == [] || dir[|dir| - 1] == '/'
    requires name != [] && '/' !in name && '.' !in name
    ensures Extname(dir + name) == ""
  {
    LastPortionOfFileName(dir, name);
    NoDotPortion(name);
  }

  lemma NoDotPortion(name: string)
    requires '/' !in name && '.' !in name
    ensures PortionExtension(name) == ""
  {
  }

  /** A name whose only '.' is its first character (a dot-file) has no extension. */
  lemma DotFileHasNoExtension(dir: string, name: string)
    requires dir == [] || dir[|dir| - 1] == '/'
    requires '/' !in name && '.' !in name && name != []
    ensures Extname(dir + ("." + name)) == ""
  {
    LastPortionOfFileName(dir, "." + name);
    DotNameHasNoExtension(name);
  }

  lemma DotNameHasNoExtension(name: string)
    requires '/' !in name && '.' !in name && name != []
    ensures PortionExtension("." + name) == ""
  {
    var base := "." + name;
    assert base[1..] == name;
    LastIndexOfIs(base, '.', 0);
  }

  // ---------------------------------------------------------------------
  // The getSourceFiles filter
  // ---------------------------------------------------------------------

  /** The directory markers whose presence anywhere in a path excludes it. */
  const ExcludedMarkers: seq<string> := ["node_modules", ".nuxt", ".output", ".git"]

  /** The extensions that count as source. */
  const SourceExtensions: seq<string> := [".ts", ".js", ".vue"]

  /**
   * The predicate passed to files.filter in getSourceFiles: no excluded
   * marker occurs in the path, and its extension is a source extension.
   */
  predicate IsSourceFile(file: string): (b: bool)
    ensures b <==> (forall m :: m in ExcludedMarkers ==> !Contains(file, m)) && Extname(file) in SourceExtensions
  {
    MarkersListed(file);
    if Contains(file, "node_modules") || Contains(file, ".nuxt") || Contains(file, ".output") || Contains(file, ".git") then
      false
    else
      Extname(file) in SourceExtensions
  }

  /** No excluded marker occurs exactly when none of the four includes tests holds. */
  lemma MarkersListed(file: string)
    ensures (forall m :: m in ExcludedMarkers ==> !Contains(file, m))
      <==> !(Contains(file, "node_modules") || Contains(file, ".nuxt") || Contains(file, ".output") || Contains(file, ".git"))
  {
  }

  /** r keeps some of the elements of s, in their original order. */
  predicate IsSubsequence<T(==)>(r: seq<T>, s: seq<T>)
    decreases |s|
  {
    if r == [] then true
    else if s == [] then false
    else if r[0] == s[0] then IsSubsequence(r[1..], s[1..])
    else IsSubsequence(r, s[1..])
  }

  /** A subsequence of the tail of s is a subsequence of s. */
  lemma {:induction false} SubsequenceDropHead<T>(r: seq<T>, s: seq<T>)
    requires s != [] && IsSubsequence(r, s[1..])
    ensures IsSubsequence(r, s)
    decreases |s|, 0
  {
    if r != [] && r[0] == s[0] {
      SubsequenceDropFirst(r, s[1..]);
    }
  }

  /** Dropping the first element of a subsequence leaves a subsequence. */
  lemma {:induction false} SubsequenceDropFirst<T>(r: seq<T>, t: seq<T>)
    requires r != [] && IsSubsequence(r, t)
    ensures IsSubsequence(r[1..], t)
    decreases |t|, 1
  {
    if r[0] == t[0] {
      SubsequenceDropHead(r[1..], t);
    } else {
      SubsequenceDropFirst(r, t[1..]);
      SubsequenceDropHead(r[1..], t);
    }
  }

  /**
   * Array.prototype.filter: the elements that satisfy keep, in their
   * original order and with their multiplicities.
   */
  function Filter<T(==,!new)>(keep: T -> bool, xs: seq<T>): (r: seq<T>)
    ensures IsSubsequence(r, xs)
    ensures forall x :: multiset(r)[x] == (if keep(x) then multiset(xs)[x] else 0)
    ensures forall i :: 0 <= i < |r| ==> keep(r[i])
  {
    if xs == [] then
      []
    else
      var rest := Filter(keep, xs[1..]);
      assert xs == [xs[0]] + xs[1..];
      if keep(xs[0]) then
        var r := [xs[0]] + rest;
        assert r[1..] == rest;
        r
      else
        SubsequenceDropHead(rest, xs);
        rest
  }

  /** The list getSourceFiles returns for a given list of recursively found files. */
  function SourceFiles(files: seq<string>): (r: seq<string>)
    ensures IsSubsequence(r, files)
    ensures forall f :: multiset(r)[f] == (if IsSourceFile(f) then multiset(files)[f] else 0)
    ensures forall i :: 0 <= i < |r| ==> IsSourceFile(r[i])
  {
    Filter(IsSourceFile, files)
  }

  /** Paths under .github are dropped too: ".github" contains ".git". */
  lemma GithubPathsDropped(file: string)
    requires Contains(file, ".github")
    ensures !IsSourceFile(file)
  {
    assert ".github" == ".git" + "hub";
    ContainsPrefixOfPattern(file, ".git", "hub");
  }
}
