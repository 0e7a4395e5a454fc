/**
 * The file list of a torrent detail page (`getFiles` / `subTree`): a tree of
 * groups, each with an optional directory label, nested groups and leaf lines
 * of the shape `name (size unit)`, flattened into (path, size in bytes) pairs.
 */
module FileTree {
  import opened Wrappers
  import opened Text

  /** A `ul` group: the label of a preceding `head` sibling, its nested `ul` groups, its `li` leaf texts. */
  datatype Group = Group(head: Option<string>, subs: seq<Group>, leaves: seq<string>)

  /** A `File` entity: a path and a size in bytes (a PHP float, here an exact real). */
  datatype FileEntry = FileEntry(name: string, size: real)

  datatype Unit = KB | MB | GB

  /** The three capture groups of `(.*?)\(([\d.]+) ([KMG]B)\)` on a leaf line. */
  datatype SizeMatch = SizeMatch(before: string, number: string, unit: Unit)

  // ---------------------------------------------------------------------------
  // Leaf lines

  predicate IsNumberChar(c: char) { IsDigit(c) || c == '.' }

  /** The end of the run of `[\d.]` characters starting at `i`. */
  function RunEnd(s: string, i: nat): (e: nat)
    requires i <= |s|
    decreases |s| - i
    ensures i <= e <= |s|
  {
    if i < |s| && IsNumberChar(s[i]) then RunEnd(s, i + 1) else i
  }

  lemma {:induction false} RunEndSpec(s: string, i: nat)
    requires i <= |s|
    decreases |s| - i
    ensures forall k :: i <= k < RunEnd(s, i) ==> IsNumberChar(s[k])
    ensures RunEnd(s, i) < |s| ==> !IsNumberChar(s[RunEnd(s, i)])
  {
    if i < |s| && IsNumberChar(s[i]) {
      RunEndSpec(s, i + 1);
    }
  }

  function UnitOf(c: char): Option<Unit> {
    if c == 'K' then Some(KB) else if c == 'M' then Some(MB) else if c == 'G' then Some(GB) else None
  }

  /**
   * The size suffix `(<[\d.]+> <K|M|G>B)` starts at `p`. The number is the
   * whole `[\d.]` run after the parenthesis: a shorter run would have to be
   * followed by the space, and the space is not a `[\d.]` character.
   */
  predicate SizeAt(s: string, p: nat) {
    p < |s| && s[p] == '(' &&
    var e := RunEnd(s, p + 1);
    e > p + 1 && e + 4 <= |s| && s[e] == ' ' && UnitOf(s[e + 1]).Some? && s[e + 2] == 'B' && s[e + 3] == ')'
  }

  /** The longest prefix of `s` made of decimal digits. */
  function LeadingDigits(s: string): (r: string)
    ensures |r| <= |s| && AllDigits(r)
  {
    if s == [] || !IsDigit(s[0]) then [] else [s[0]] + LeadingDigits(s[1..])
  }

  lemma {:induction false} LeadingDigitsSpec(s: string)
    ensures LeadingDigits(s) == s[..|LeadingDigits(s)|]
    ensures |LeadingDigits(s)| < |s| ==> !IsDigit(s[|LeadingDigits(s)|])
  {
    if s != [] && IsDigit(s[0]) {
      LeadingDigitsSpec(s[1..]);
      assert s[1..][..|LeadingDigits(s[1..])|] == s[1..|LeadingDigits(s[1..])| + 1];
    }
  }

  /**
   * PHP's `(float)` of a `[\d.]+` string: the leading decimal number, i.e. the
   * digits before the first dot and the digits between the first and second dot
   * (`"1.5"` is 1.5, `"1.2.3"` is 1.2, `"."` is 0).
   */
  function NumberValue(run: string): (r: real)
    ensures r >= 0.0
  {
    var whole := LeadingDigits(run);
    var rest := run[|whole|..];
    var frac := if rest != [] && rest[0] == '.' then LeadingDigits(rest[1..]) else [];
    DecimalValue(whole) as real + DecimalValue(frac) as real / Pow10(|frac|) as real
  }

  /**
   * Where `preg_match('#(.*?)\(([\d.]+) ([KMG]B)\)#', $text, $m)` finds the
   * size suffix when tried from index `p` on: the lazy `.*?` stops at the
   * leftmost one.
   */
  function FirstSize(text: string, p: nat): (r: Option<nat>)
    decreases |text| - p
    ensures r.Some? ==> p <= r.value < |text| && SizeAt(text, r.value)
  {
    if p >= |text| then None
    else if SizeAt(text, p) then Some(p)
    else FirstSize(text, p + 1)
  }

  lemma {:induction false} FirstSizeSpec(text: string, p: nat)
    decreases |text| - p
    ensures FirstSize(text, p).None? <==> forall q :: p <= q < |text| ==> !SizeAt(text, q)
    ensures FirstSize(text, p).Some? ==> forall q :: p <= q < FirstSize(text, p).value ==> !SizeAt(text, q)
  {
    if p < |text| && !SizeAt(text, p) {
      FirstSizeSpec(text, p + 1);
    }
  }

  /** The three groups of the match: the text before the suffix, the number, the unit. */
  function ParseLeaf(text: string): Option<SizeMatch> {
    match FirstSize(text, 0)
    case None => None
    case Some(q) =>
      var e := RunEnd(text, q + 1);
      Some(SizeMatch(text[..q], text[q + 1..e], UnitOf(text[e + 1]).value))
  }

  /**
   * A leaf line matches exactly when a size suffix occurs in it; the match
   * comes from the leftmost one: the first group is the text before it, the
   * second the `[\d.]` run inside it, the third the unit its letter names.
   */
  lemma ParseLeafSpec(text: string)
    ensures ParseLeaf(text).Some? <==> exists p :: 0 <= p < |text| && SizeAt(text, p)
    ensures ParseLeaf(text).Some? ==>
              exists p :: 0 <= p < |text| && SizeAt(text, p)
                          && (forall q :: 0 <= q < p ==> !SizeAt(text, q))
                          && ParseLeaf(text).value.before == text[..p]
                          && ParseLeaf(text).value.number == text[p + 1..RunEnd(text, p + 1)]
                          && Some(ParseLeaf(text).value.unit) == UnitOf(text[RunEnd(text, p + 1) + 1])
  {
    FirstSizeSpec(text, 0);
    if ParseLeaf(text).Some? {
      var p := FirstSize(text, 0).value;
      assert ParseLeaf(text).value.before == text[..p];
    }
  }

  /** `size` units of `u` in bytes: the tiers are 1024, 1024^2 and 1024^3 bytes. */
  function InBytes(size: real, u: Unit): real {
    match u
    case KB => size * 1024.0
    case MB => size * 1048576.0
    case GB => size * 1073741824.0
  }

  /**
   * The fall-through `switch ($m[3])`: `GB` runs all three `*= 1024`, `MB`
   * the last two, `KB` the last one.
   */
  method Scale(size: real, unit: Unit) returns (bytes: real)
    ensures bytes == InBytes(size, unit)
  {
    bytes := size;
    if unit == GB {
      bytes := bytes * 1024.0;
    }
    if unit == GB || unit == MB {
      bytes := bytes * 1024.0;
    }
    bytes := bytes * 1024.0;
  }

  /** The file a leaf line gives in directory `dir`; a line without a size suffix gives none. */
  function LeafFile(dir: string, text: string): Option<FileEntry> {
    match ParseLeaf(text)
    case Some(m) => Some(FileEntry(dir + Trim(m.before), InBytes(NumberValue(m.number), m.unit)))
    case None => None
  }

  /**
   * The leaf step as the PHP code has it: without a match, `$m[1]` and `$m[2]`
   * are undefined and read as null, so the line still becomes a file, named
   * `dir` with size 0.
   */
  function LeafFileAsWritten(dir: string, text: string): FileEntry {
    match ParseLeaf(text)
    case Some(m) => FileEntry(dir + Trim(m.before), InBytes(NumberValue(m.number), m.unit))
    case None => FileEntry(dir, 0.0)
  }

  // ---------------------------------------------------------------------------
  // Flattening

  /** `trim(label) . '/'` when a `head` label precedes the group, else the empty prefix. */
  function Prefix(g: Group): string {
    if g.head.Some? then Trim(g.head.value) + "/" else ""
  }

  /** The files `fs` after `setName($dir . getName())` on each. */
  function Renamed(dir: string, fs: seq<FileEntry>): seq<FileEntry> {
    seq(|fs|, t requires 0 <= t < |fs| => FileEntry(dir + fs[t].name, fs[t].size))
  }

  lemma RenamedAppend(dir: string, a: seq<FileEntry>, b: seq<FileEntry>)
    ensures Renamed(dir, a + b) == Renamed(dir, a) + Renamed(dir, b)
  {
  }

  /** What one leaf line appends to the result: its file, or nothing. */
  function LeafOut(dir: string, text: string): seq<FileEntry> {
    match LeafFile(dir, text)
    case Some(f) => [f]
    case None => []
  }

  /** Everything `subTree` returns for `g`. */
  function Flatten(g: Group): seq<FileEntry>
    decreases g, |g.subs| + |g.leaves|, 2
  {
    FilesUpTo(g, |g.subs| + |g.leaves|)
  }

  /**
   * What `subTree` has collected for `g` after its first `k` steps: one step
   * per nested group, then one step per leaf line.
   */
  function FilesUpTo(g: Group, k: nat): seq<FileEntry>
    requires k <= |g.subs| + |g.leaves|
    decreases g, k, 1
  {
    if k == 0 then [] else FilesUpTo(g, k - 1) + Step(g, k - 1)
  }

  /**
   * What step `j` of `subTree` appends: the files of nested group `j`,
   * renamed with this group's prefix, or the file of a leaf line, if any.
   */
  function Step(g: Group, j: nat): seq<FileEntry>
    requires j < |g.subs| + |g.leaves|
    decreases g, j, 0
  {
    if j < |g.subs| then Renamed(Prefix(g), Flatten(g.subs[j]))
    else LeafOut(Prefix(g), g.leaves[j - |g.subs|])
  }

  lemma SubStep(g: Group, i: nat)
    requires i < |g.subs|
    ensures FilesUpTo(g, i + 1) == FilesUpTo(g, i) + Renamed(Prefix(g), Flatten(g.subs[i]))
  {
  }

  lemma LeafStep(g: Group, k: nat)
    requires k < |g.leaves|
    ensures FilesUpTo(g, |g.subs| + k + 1) == FilesUpTo(g, |g.subs| + k) + LeafOut(Prefix(g), g.leaves[k])
  {
  }

  /** `getFiles`: the files of the top-level groups, one group after the other. */
  function FlattenAll(gs: seq<Group>): seq<FileEntry> {
    if gs == [] then [] else FlattenAll(gs[..|gs| - 1]) + Flatten(gs[|gs| - 1])
  }

  /**
   * The inner `foreach ($subfiles as $item)` of `subTree`: each file a nested
   * group returned is renamed with `dir` and appended.
   */
  method AppendRenamed(files: seq<FileEntry>, dir: string, subfiles: seq<FileEntry>) returns (out: seq<FileEntry>)
    ensures out == files + Renamed(dir, subfiles)
  {
    out := files;
    var j := 0;
    while j < |subfiles|
      invariant j <= |subfiles|
      invariant out == files + Renamed(dir, subfiles[..j])
    {
      var item := subfiles[j];
      assert Renamed(dir, subfiles[..j + 1]) == Renamed(dir, subfiles[..j]) + [FileEntry(dir + item.name, item.size)];
      out := out + [FileEntry(dir + item.name, item.size)];
      j := j + 1;
    }
    assert subfiles[..j] == subfiles;
  }

  /**
   * One pass of the `foreach ($items as $item)` of `subTree`: match the size
   * pattern, trim the name, cast the number, scale it by the unit, append.
   */
  method AppendLeaf(files: seq<FileEntry>, dir: string, text: string) returns (out: seq<FileEntry>)
    ensures out == files + LeafOut(dir, text)
  {
    out := files;
    var m := ParseLeaf(text);
    if m.Some? {
      var name := Trim(m.value.before);
      var size := NumberValue(m.value.number);
      size := Scale(size, m.value.unit);
      out := out + [FileEntry(dir + name, size)];
    }
  }

  /**
   * `subTree`: recurses into the nested groups first, renaming each returned
   * file with this group's prefix, then turns each leaf line into a file.
   */
  method SubTree(g: Group) returns (files: seq<FileEntry>)
    ensures files == Flatten(g)
    decreases g
  {
    var dir := Prefix(g);
    files := [];
    var i := 0;
    while i < |g.subs|
      invariant i <= |g.subs|
      invariant files == FilesUpTo(g, i)
    {
      var subfiles := SubTree(g.subs[i]);
      SubStep(g, i);
      files := AppendRenamed(files, dir, subfiles);
      i := i + 1;
    }
    var k := 0;
    while k < |g.leaves|
      invariant k <= |g.leaves|
      invariant files == FilesUpTo(g, |g.subs| + k)
    {
      LeafStep(g, k);
      files := AppendLeaf(files, dir, g.leaves[k]);
      k := k + 1;
    }
  }

  /**
   * `getFiles`: `subTree` on every top-level group, the per-group arrays
   * flattened in order (`array_walk_recursive`); the final `array_filter`
   * keeps every entry, since an object is never falsy.
   */
  method GetFiles(groups: seq<Group>) returns (flat: seq<FileEntry>)
    ensures flat == FlattenAll(groups)
  {
    var files: seq<seq<FileEntry>> := [];
    var i := 0;
    while i < |groups|
      invariant i <= |groups|
      invariant |files| == i
      invariant forall k :: 0 <= k < i ==> files[k] == Flatten(groups[k])
    {
      var sub := SubTree(groups[i]);
      files := files + [sub];
      i := i + 1;
    }
    flat := [];
    i := 0;
    while i < |files|
      invariant i <= |files|
      invariant flat == FlattenAll(groups[..i])
    {
      assert groups[..i + 1][..i] == groups[..i];
      assert FlattenAll(groups[..i + 1]) == FlattenAll(groups[..i]) + files[i];
      var j := 0;
      ghost var before := flat;
      while j < |files[i]|
        invariant j <= |files[i]|
        invariant flat == before + files[i][..j]
      {
        assert files[i][..j + 1] == files[i][..j] + [files[i][j]];
        flat := flat + [files[i][j]];
        j := j + 1;
      }
      assert files[i][..j] == files[i];
      i := i + 1;
    }
    assert groups[..i] == groups;
  }

  // ---------------------------------------------------------------------------
  // Properties

  /**
   * A leaf line gives a file exactly when it holds a size suffix; the file is
   * named by the directory and the trimmed text before the leftmost suffix; its
   * size is the number of that suffix scaled by its unit, and never negative.
   */
  lemma LeafFileSpec(dir: string, text: string)
    ensures LeafFile(dir, text).Some? <==> exists p :: 0 <= p < |text| && SizeAt(text, p)
    ensures LeafFile(dir, text).Some? ==>
              exists p :: 0 <= p < |text| && SizeAt(text, p)
                          && (forall q :: 0 <= q < p ==> !SizeAt(text, q))
                          && LeafFile(dir, text).value.name == dir + Trim(text[..p])
                          && UnitOf(text[RunEnd(text, p + 1) + 1]).Some?
                          && LeafFile(dir, text).value.size
                             == InBytes(NumberValue(text[p + 1..RunEnd(text, p + 1)]), UnitOf(text[RunEnd(text, p + 1) + 1]).value)
    ensures LeafFile(dir, text).Some? ==> LeafFile(dir, text).value.size >= 0.0
  {
    FirstSizeSpec(text, 0);
    if FirstSize(text, 0).Some? {
      var p := FirstSize(text, 0).value;
      var e := RunEnd(text, p + 1);
      assert LeafFile(dir, text).value == FileEntry(dir + Trim(text[..p]), InBytes(NumberValue(text[p + 1..e]), UnitOf(text[e + 1]).value));
    } else {
      assert forall q :: 0 <= q < |text| ==> !SizeAt(text, q);
    }
  }

  /** Every path `subTree` returns for `g` starts with the group's own prefix. */
  lemma {:induction false} NamesUnderPrefix(g: Group, k: nat)
    requires k <= |g.subs| + |g.leaves|
    ensures forall t :: 0 <= t < |FilesUpTo(g, k)| ==> Prefix(g) <= FilesUpTo(g, k)[t].name
  {
    if k > 0 {
      NamesUnderPrefix(g, k - 1);
      StepUnderPrefix(g, k - 1);
      NamesUnderAppend(Prefix(g), FilesUpTo(g, k - 1), Step(g, k - 1));
    }
  }

  lemma StepUnderPrefix(g: Group, j: nat)
    requires j < |g.subs| + |g.leaves|
    ensures forall t :: 0 <= t < |Step(g, j)| ==> Prefix(g) <= Step(g, j)[t].name
  {
    if j >= |g.subs| {
      LeafOutUnder(Prefix(g), g.leaves[j - |g.subs|]);
    }
  }

  lemma LeafOutUnder(dir: string, text: string)
    ensures forall t :: 0 <= t < |LeafOut(dir, text)| ==> dir <= LeafOut(dir, text)[t].name
  {
  }

  lemma NamesUnderAppend(dir: string, a: seq<FileEntry>, b: seq<FileEntry>)
    requires forall t :: 0 <= t < |a| ==> dir <= a[t].name
    requires forall t :: 0 <= t < |b| ==> dir <= b[t].name
    ensures forall t :: 0 <= t < |a + b| ==> dir <= (a + b)[t].name
  {
  }

  // The tree walk with the directory passed downwards

  /**
   * The files of `g` computed top-down: each leaf line is parsed at its full
   * path, `dir` followed by the labels of the groups on the way down, instead
   * of being renamed on the way back up as `subTree` does.
   */
  function TopDown(g: Group, dir: string): seq<FileEntry>
    decreases g, |g.subs| + |g.leaves|, 2
  {
    TopDownUpTo(g, dir, |g.subs| + |g.leaves|)
  }

  function TopDownUpTo(g: Group, dir: string, k: nat): seq<FileEntry>
    requires k <= |g.subs| + |g.leaves|
    decreases g, k, 1
  {
    if k == 0 then [] else TopDownUpTo(g, dir, k - 1) + TopDownStep(g, dir, k - 1)
  }

  function TopDownStep(g: Group, dir: string, j: nat): seq<FileEntry>
    requires j < |g.subs| + |g.leaves|
    decreases g, j, 0
  {
    if j < |g.subs| then TopDown(g.subs[j], dir + Prefix(g))
    else LeafOut(dir + Prefix(g), g.leaves[j - |g.subs|])
  }

  /** Renaming a leaf's file is placing the leaf one directory deeper. */
  lemma RenamedLeaf(d: string, dir: string, text: string)
    ensures Renamed(d, LeafOut(dir, text)) == LeafOut(d + dir, text)
  {
    match ParseLeaf(text)
    case None =>
    case Some(m) =>
      assert d + (dir + Trim(m.before)) == (d + dir) + Trim(m.before);
  }

  lemma RenamedTwice(d: string, e: string, fs: seq<FileEntry>)
    ensures Renamed(d, Renamed(e, fs)) == Renamed(d + e, fs)
  {
    forall t | 0 <= t < |fs|
      ensures Renamed(d, Renamed(e, fs))[t] == Renamed(d + e, fs)[t]
    {
      assert d + (e + fs[t].name) == (d + e) + fs[t].name;
    }
  }

  lemma {:induction false} RenamedFlatten(g: Group, d: string)
    decreases g, |g.subs| + |g.leaves|, 2
    ensures Renamed(d, Flatten(g)) == TopDown(g, d)
  {
    RenamedFilesUpTo(g, d, |g.subs| + |g.leaves|);
  }

  lemma {:induction false} RenamedFilesUpTo(g: Group, d: string, k: nat)
    requires k <= |g.subs| + |g.leaves|
    decreases g, k, 1
    ensures Renamed(d, FilesUpTo(g, k)) == TopDownUpTo(g, d, k)
  {
    if k > 0 {
      RenamedFilesUpTo(g, d, k - 1);
      RenamedStep(g, d, k - 1);
      RenamedAppend(d, FilesUpTo(g, k - 1), Step(g, k - 1));
    }
  }

  lemma {:induction false} RenamedStep(g: Group, d: string, j: nat)
    requires j < |g.subs| + |g.leaves|
    decreases g, j, 0
    ensures Renamed(d, Step(g, j)) == TopDownStep(g, d, j)
  {
    if j < |g.subs| {
      RenamedTwice(d, Prefix(g), Flatten(g.subs[j]));
      RenamedFlatten(g.subs[j], d + Prefix(g));
    } else {
      RenamedLeaf(d, Prefix(g), g.leaves[j - |g.subs|]);
    }
  }

  /**
   * Renaming bottom-up, as `subTree` does, gives the same files in the same
   * order as parsing each leaf line at its full path top-down.
   */
  lemma FlattenIsTopDown(g: Group)
    ensures Flatten(g) == TopDown(g, "")
  {
    RenamedFlatten(g, "");
    forall t | 0 <= t < |Flatten(g)|
      ensures Renamed("", Flatten(g))[t] == Flatten(g)[t]
    {
      assert "" + Flatten(g)[t].name == Flatten(g)[t].name;
    }
  }

  /** The number of files the first `i` nested groups of `g` return. */
  function SubCount(g: Group, i: nat): nat
    requires i <= |g.subs|
  {
    if i == 0 then 0 else SubCount(g, i - 1) + |Flatten(g.subs[i - 1])|
  }

  /** A leaf line carries a size suffix. */
  predicate HasSize(text: string) {
    FirstSize(text, 0).Some?
  }

  /** The number of leaf lines with a size suffix among the first `k` steps of `subTree` on `g`. */
  function ParsedLeaves(g: Group, k: nat): (r: nat)
    requires k <= |g.subs| + |g.leaves|
    ensures k <= |g.subs| ==> r == 0
    ensures k > |g.subs| ==> r <= k - |g.subs|
  {
    if k <= |g.subs| then 0
    else ParsedLeaves(g, k - 1) + (if HasSize(g.leaves[k - 1 - |g.subs|]) then 1 else 0)
  }

  /** Every leaf line among the first `k` steps counts exactly when every one of them carries a size suffix. */
  lemma {:induction false} ParsedLeavesAll(g: Group, k: nat)
    requires |g.subs| <= k <= |g.subs| + |g.leaves|
    ensures ParsedLeaves(g, k) == k - |g.subs| <==> forall i :: 0 <= i < k - |g.subs| ==> HasSize(g.leaves[i])
  {
    if k > |g.subs| {
      ParsedLeavesAll(g, k - 1);
    }
  }

  /** A leaf line contributes one file when it has a size suffix and none otherwise. */
  lemma LeafOutCount(dir: string, text: string)
    ensures HasSize(text) <==> ParseLeaf(text).Some?
    ensures |LeafOut(dir, text)| == if HasSize(text) then 1 else 0
  {
  }

  /** After the steps for the first `i` nested groups, one file per file those groups return. */
  lemma {:induction false} SubsCount(g: Group, i: nat)
    requires i <= |g.subs|
    ensures |FilesUpTo(g, i)| == SubCount(g, i)
  {
    if i > 0 {
      SubsCount(g, i - 1);
      SubStep(g, i - 1);
    }
  }

  /** Step `k` past the nested groups appends the file of leaf line `k - 1 - |g.subs|`, if any. */
  lemma LeafStepAt(g: Group, k: nat)
    requires |g.subs| < k <= |g.subs| + |g.leaves|
    ensures FilesUpTo(g, k) == FilesUpTo(g, k - 1) + LeafOut(Prefix(g), g.leaves[k - 1 - |g.subs|])
  {
  }

  /** After the steps for the nested groups and some leaf lines, one more file per parsed line. */
  lemma {:induction false} LeavesCount(g: Group, k: nat)
    requires |g.subs| <= k <= |g.subs| + |g.leaves|
    ensures |FilesUpTo(g, k)| == SubCount(g, |g.subs|) + ParsedLeaves(g, k)
  {
    if k == |g.subs| {
      SubsCount(g, k);
    } else {
      LeavesCount(g, k - 1);
      LeafStepAt(g, k);
      LeafOutCount(Prefix(g), g.leaves[k - 1 - |g.subs|]);
    }
  }

  /** `subTree` returns what it has collected after its last step. */
  lemma FlattenAt(g: Group, n: nat)
    requires n == |g.subs| + |g.leaves|
    ensures Flatten(g) == FilesUpTo(g, n)
  {
  }

  /**
   * `subTree` on a group with `n` steps (nested groups plus leaf lines)
   * returns as many files as its nested groups do together, plus one per leaf
   * line with a size suffix.
   */
  lemma FlattenCount(g: Group, n: nat)
    requires n == |g.subs| + |g.leaves|
    ensures |Flatten(g)| == SubCount(g, |g.subs|) + ParsedLeaves(g, n)
  {
    LeavesCount(g, n);
    FlattenAt(g, n);
  }

  /**
   * So `subTree` returns at most one file per leaf line beyond those of its
   * nested groups, and exactly one per leaf line when every line parses.
   */
  lemma FlattenCountBounds(g: Group, n: nat)
    requires n == |g.subs| + |g.leaves|
    ensures |Flatten(g)| <= SubCount(g, |g.subs|) + |g.leaves|
    ensures (forall i :: 0 <= i < |g.leaves| ==> HasSize(g.leaves[i])) <==>
              |Flatten(g)| == SubCount(g, |g.subs|) + |g.leaves|
  {
    FlattenCount(g, n);
    ParsedLeavesAll(g, n);
  }

  /** `getFiles` returns a file exactly when some top-level group's `subTree` does. */
  lemma {:induction false} FlattenAllMembers(gs: seq<Group>)
    ensures forall f :: f in FlattenAll(gs) <==> exists i :: 0 <= i < |gs| && f in Flatten(gs[i])
  {
    if gs != [] {
      var init := gs[..|gs| - 1];
      FlattenAllMembers(init);
      forall f | f in FlattenAll(gs)
        ensures exists i :: 0 <= i < |gs| && f in Flatten(gs[i])
      {
        if f in FlattenAll(init) {
          var i :| 0 <= i < |init| && f in Flatten(init[i]);
          assert gs[i] == init[i];
        }
      }
      forall f, i | 0 <= i < |gs| && f in Flatten(gs[i])
        ensures f in FlattenAll(gs)
      {
        if i < |gs| - 1 {
          assert init[i] == gs[i];
        }
      }
    }
  }

  // Examples

  /** `(float)` reads the digits up to the second dot: `"1.5"` is 1.5, `"1.2.3"` is 1.2. */
  lemma NumberValueFractions()
    ensures NumberValue("1.5") == 1.5
    ensures NumberValue("1.2.3") == 1.2
  {
    assert LeadingDigits("1.2.3") == "1";
    assert "1.2.3"[1..] == ".2.3" && ".2.3"[1..] == "2.3";
    assert LeadingDigits("2.3") == "2";
    assert DecimalValue("1") == 1 && DecimalValue("2") == 2 && Pow10(1) == 10;
    assert NumberValue("1.2.3") == 1.0 + 2.0 / 10.0;
  }

  /** A run without a dot is a whole number; a lone dot is 0. */
  lemma NumberValueWhole()
    ensures NumberValue("700") == 700.0
    ensures NumberValue(".") == 0.0
  {
    assert LeadingDigits("0") == "0";
    assert LeadingDigits("00") == "0" + LeadingDigits("0");
    assert LeadingDigits("700") == "7" + LeadingDigits("00") == "700";
    assert "700"[..2] == "70" && "70"[..1] == "7";
    assert DecimalValue("7") == 7;
    assert DecimalValue("70") == 70;
    assert DecimalValue("700") == 700;
    assert "700"[3..] == [];
    assert LeadingDigits(".") == [] && "."[1..] == [];
  }

  /** The search passes over positions that hold no opening parenthesis. */
  lemma {:induction false} FirstSizeSkips(text: string, p: nat, q: nat)
    requires p <= q <= |text|
    requires forall i :: p <= i < q ==> text[i] != '('
    decreases q - p
    ensures FirstSize(text, p) == FirstSize(text, q)
  {
    if p < q {
      FirstSizeSkips(text, p + 1, q);
    }
  }

  /** The size suffix of `Episode1 (1.5 GB)` starts at index 9. */
  lemma FirstSizeExample()
    ensures FirstSize("Episode1 (1.5 GB)", 0) == Some(9)
  {
    var text := "Episode1 (1.5 GB)";
    assert RunEnd(text, 10) == 13 by {
      assert RunEnd(text, 13) == 13;
      assert RunEnd(text, 12) == 13;
      assert RunEnd(text, 11) == 13;
    }
    assert SizeAt(text, 9);
    FirstSizeSkips(text, 0, 9);
  }

  /** The text before the suffix is `Episode1 `, the number `1.5`, the unit GB. */
  lemma ParseLeafExample()
    ensures ParseLeaf("Episode1 (1.5 GB)") == Some(SizeMatch("Episode1 ", "1.5", GB))
  {
    var text := "Episode1 (1.5 GB)";
    FirstSizeExample();
    assert RunEnd(text, 10) == 13 by {
      assert RunEnd(text, 13) == 13;
      assert RunEnd(text, 12) == 13;
      assert RunEnd(text, 11) == 13;
    }
    assert text[..9] == "Episode1 " && text[10..13] == "1.5" && text[14] == 'G';
  }

  lemma TrimExamples()
    ensures Trim("Episode1 ") == "Episode1"
    ensures Trim("Season1") == "Season1"
  {
    assert TrailingTrim("Episode1 ") == TrailingTrim("Episode1") == 8;
    assert TrailingTrim("Season1") == 7;
  }

  /** The leaf line `Episode1 (1.5 GB)` in directory `Season1/`. */
  lemma LeafFileExample()
    ensures LeafFile("Season1/", "Episode1 (1.5 GB)") == Some(FileEntry("Season1/" + "Episode1", 1610612736.0))
  {
    ParseLeafExample();
    NumberValueFractions();
    TrimExamples();
  }

  /** A labelled group with one leaf line: `Season1/Episode1`, 1.5 GB in bytes. */
  lemma SeasonExample()
    ensures Flatten(Group(Some("Season1"), [], ["Episode1 (1.5 GB)"]))
            == [FileEntry("Season1/" + "Episode1", 1610612736.0)]
  {
    var g := Group(Some("Season1"), [], ["Episode1 (1.5 GB)"]);
    LeafFileExample();
    TrimExamples();
    assert Prefix(g) == "Season1/";
    assert Step(g, 0) == LeafOut("Season1/", "Episode1 (1.5 GB)");
  }

  /**
   * As written, a leaf line without a size suffix still becomes a file named
   * after its directory, of size 0; the corrected step gives no file.
   */
  lemma UnmatchedLeafAsWritten()
    ensures LeafFileAsWritten("Season1/", "README") == FileEntry("Season1/", 0.0)
    ensures LeafFile("Season1/", "README") == None
  {
  }
}
