/** Which contract files repeat what another file of the same reader declares. */
module ContractCopies {
  import opened Json
  import opened Texts

  /** A boundary's key to the text a file has for it. */
  type Content = map<string, string>

  /** A summary's pairing key, where it has one, and what it says. */
  datatype Said = Said(key: Option<string>, text: string)

  /** A file as it was read. Its size is not known when it cannot be measured, and then counts as the largest. */
  datatype Read = Read(name: string, file: Option<string>, content: Option<Content>, bytes: Option<nat>)

  datatype Comparable = Comparable(name: string, file: string, content: Content, bytes: Option<nat>)

  datatype Covered = Covered(name: string, file: string, coveredBy: string)

  // ------------------------------------------------------------------- contents

  /** The texts said under one key, in order, one to a line. */
  function SaidUnder(said: seq<Said>, key: string): Option<string> {
    if said == [] then None else
      var front, last := SaidUnder(said[..|said| - 1], key), said[|said| - 1];
      if last.key != Some(key) then front
      else if front.None? then Some(last.text) else Some(front.value + "\n" + last.text)
  }

  ghost predicate IsContent(said: seq<Said>, content: Content) {
    forall key :: (key in content <==> SaidUnder(said, key).Some?) &&
      (key in content ==> SaidUnder(said, key) == Some(content[key]))
  }

  predicate AllKeyed(said: seq<Said>) {
    forall i :: 0 <= i < |said| ==> said[i].key.Some?
  }

  /** Builds the map that `IsContent` describes, and gives up at the first summary without a key. */
  method ContentByBoundary(said: seq<Said>) returns (content: Option<Content>)
    ensures content.Some? <==> AllKeyed(said)
    ensures content.Some? ==> IsContent(said, content.value)
  {
    var sofar: Content := map[];
    for i := 0 to |said|
      invariant AllKeyed(said[..i])
      invariant IsContent(said[..i], sofar)
    {
      assert said[..i + 1][..i] == said[..i];
      if said[i].key.None? {
        return None;
      }
      var key := said[i].key.value;
      sofar := sofar[key := if key in sofar then sofar[key] + "\n" + said[i].text else said[i].text];
    }
    assert said[..|said|] == said;
    return Some(sofar);
  }

  /** Every boundary of the small one is in the large one, saying the same. */
  predicate SaysAllOf(large: Content, small: Content) {
    forall key :: key in small ==> key in large && large[key] == small[key]
  }

  method SaysAll(large: Content, small: Content) returns (all: bool)
    ensures all == SaysAllOf(large, small)
  {
    var left := small.Keys;
    while left != {}
      invariant left <= small.Keys
      invariant forall key :: key in small && key !in left ==> key in large && large[key] == small[key]
      decreases left
    {
      var key :| key in left;
      if key !in large || large[key] != small[key] {
        return false;
      }
      left := left - {key};
    }
    return true;
  }

  // ------------------------------------------------------------------ the order

  function Depth(file: string): nat {
    if file == "" then 1 else (if file[0] == '/' then 1 else 0) + Depth(file[1..])
  }

  predicate FewerBytes(a: Option<nat>, b: Option<nat>) {
    a.Some? && (b.None? || a.value < b.value)
  }

  /** The tie-break: fewer directories, then fewer bytes, then the earlier name; a strict order on each. */
  predicate KeptBefore(a: Comparable, b: Comparable) {
    if Depth(a.file) != Depth(b.file) then Depth(a.file) < Depth(b.file)
    else if a.bytes != b.bytes then FewerBytes(a.bytes, b.bytes)
    else TextBefore(a.file, b.file)
  }

  predicate Covers(files: seq<Comparable>, i: int, j: int) {
    && 0 <= i < |files| && 0 <= j < |files| && i != j
    && files[i].name == files[j].name
    && SaysAllOf(files[i].content, files[j].content)
    && (|files[i].content| > |files[j].content| || KeptBefore(files[i], files[j]))
  }

  function ComparableOf(r: Read): seq<Comparable> {
    if r.content.None? || r.file.None? then [] else [Comparable(r.name, r.file.value, r.content.value, r.bytes)]
  }

  function ComparablesOf(files: seq<Read>): seq<Comparable> {
    if files == [] then [] else ComparableOf(files[0]) + ComparablesOf(files[1..])
  }

  predicate IsKept(files: seq<Comparable>, j: int) {
    0 <= j < |files| && forall i :: 0 <= i < |files| ==> !Covers(files, i, j)
  }

  /** The first kept file from `i` on that covers the one at `j`. */
  function KeptCovering(files: seq<Comparable>, j: int, i: nat): (r: Option<nat>)
    requires i <= |files|
    ensures r.Some? ==> i <= r.value < |files| && IsKept(files, r.value) && Covers(files, r.value, j)
    ensures r.Some? ==> forall k :: i <= k < r.value && IsKept(files, k) ==> !Covers(files, k, j)
    ensures r.None? ==> forall k :: i <= k < |files| && IsKept(files, k) ==> !Covers(files, k, j)
    decreases |files| - i
  {
    if i == |files| then None
    else if IsKept(files, i) && Covers(files, i, j) then Some(i)
    else KeptCovering(files, j, i + 1)
  }

  /** The file at `j` with the file kept in its place, where there is one. */
  function EntryAt(files: seq<Comparable>, j: nat): seq<Covered>
    requires j < |files|
  {
    var keeper := KeptCovering(files, j, 0);
    if keeper.None? then [] else [Covered(files[j].name, files[j].file, files[keeper.value].file)]
  }

  function CoveredFrom(files: seq<Comparable>, j: nat): seq<Covered>
    requires j <= |files|
    decreases |files| - j
  {
    if j == |files| then [] else EntryAt(files, j) + CoveredFrom(files, j + 1)
  }

  /** Each file another file of the same reader repeats, with the file kept in its place. */
  function ContractsCoveredByAnother(files: seq<Read>): seq<Covered> {
    CoveredFrom(ComparablesOf(files), 0)
  }

  // -------------------------------------------------------- a strict partial order

  lemma KeptBeforeIsTransitive(a: Comparable, b: Comparable, c: Comparable)
    requires KeptBefore(a, b) && KeptBefore(b, c)
    ensures KeptBefore(a, c)
  {
    if Depth(a.file) == Depth(b.file) == Depth(c.file) && a.bytes == b.bytes == c.bytes {
      BeforeIsTransitive(a.file, b.file, c.file);
    }
  }

  lemma NotKeptBeforeItself(a: Comparable)
    ensures !KeptBefore(a, a)
  {
    NotBeforeItself(a.file);
  }

  lemma SaysAllIsLarger(large: Content, small: Content)
    requires SaysAllOf(large, small)
    ensures |small| <= |large|
  {
    assert small.Keys <= large.Keys;
    assert large.Keys == small.Keys + (large.Keys - small.Keys);
    assert |small| == |small.Keys| && |large| == |large.Keys|;
  }

  lemma CoversIsTransitive(files: seq<Comparable>, i: int, j: int, k: int)
    requires Covers(files, i, j) && Covers(files, j, k)
    ensures Covers(files, i, k)
  {
    SaysAllIsLarger(files[i].content, files[j].content);
    SaysAllIsLarger(files[j].content, files[k].content);
    if |files[i].content| == |files[j].content| == |files[k].content| {
      KeptBeforeIsTransitive(files[i], files[j], files[k]);
      NotKeptBeforeItself(files[i]);
    }
  }

  function Coverers(files: seq<Comparable>, j: int): set<int> {
    set i | 0 <= i < |files| && Covers(files, i, j)
  }

  lemma FewerCoverers(files: seq<Comparable>, i: int, j: int)
    requires Covers(files, i, j)
    ensures |Coverers(files, i)| < |Coverers(files, j)|
  {
    forall k | k in Coverers(files, i)
      ensures k in Coverers(files, j)
    {
      CoversIsTransitive(files, k, i, j);
    }
    var a, b := Coverers(files, i), Coverers(files, j);
    assert i in b - a;
    assert b == a + (b - a);
  }

  /** Every file that is not kept is covered by one that is. */
  lemma {:induction false} LeftOutIsCovered(files: seq<Comparable>, j: nat) returns (i: nat)
    requires j < |files| && !IsKept(files, j)
    ensures IsKept(files, i) && Covers(files, i, j)
    decreases |Coverers(files, j)|
  {
    i :| 0 <= i < |files| && Covers(files, i, j);
    if !IsKept(files, i) {
      FewerCoverers(files, i, j);
      var above := LeftOutIsCovered(files, i);
      CoversIsTransitive(files, above, i, j);
      i := above;
    }
  }

  /** A choice of files in which none covers another, and each file not chosen is covered by one that is. */
  ghost predicate IsSelection(files: seq<Comparable>, chosen: set<int>) {
    && (forall i :: i in chosen ==> 0 <= i < |files|)
    && (forall i, j :: i in chosen && j in chosen ==> !Covers(files, i, j))
    && (forall j :: 0 <= j < |files| && j !in chosen ==> exists i :: i in chosen && Covers(files, i, j))
  }

  function KeptFiles(files: seq<Comparable>): set<int> {
    set i | 0 <= i < |files| && IsKept(files, i)
  }

  /** The kept files are such a choice, and there is no other: nothing is kept that a kept file covers, nothing
      uncovered is lost. */
  lemma KeptIsTheSelection(files: seq<Comparable>, chosen: set<int>)
    ensures IsSelection(files, chosen) <==> chosen == KeptFiles(files)
  {
    var kept := KeptFiles(files);
    forall j | 0 <= j < |files| && j !in kept
      ensures exists i :: i in kept && Covers(files, i, j)
    {
      var i := LeftOutIsCovered(files, j);
      assert i in kept;
    }
    if IsSelection(files, chosen) {
      forall j
        ensures j in chosen <==> j in kept
      {
        SelectedIsKept(files, chosen, j);
      }
    }
  }

  lemma SelectedIsKept(files: seq<Comparable>, chosen: set<int>, j: int)
    requires IsSelection(files, chosen)
    ensures j in chosen <==> j in KeptFiles(files)
  {
    if j in chosen && !IsKept(files, j) {
      var i := LeftOutIsCovered(files, j);
      KeptIsSelected(files, chosen, i);
      assert false;
    }
  }

  /** Nothing covers a kept file, so no choice can leave it out. */
  lemma KeptIsSelected(files: seq<Comparable>, chosen: set<int>, i: int)
    requires IsSelection(files, chosen) && IsKept(files, i)
    ensures i in chosen
  {
    assert forall k :: k in chosen ==> !Covers(files, k, i);
  }

  /** Every boundary of every file, with what it says, is in a kept file of the same reader. */
  lemma NoContentIsLost(files: seq<Comparable>, j: nat, key: string) returns (i: nat)
    requires j < |files| && key in files[j].content
    ensures IsKept(files, i) && files[i].name == files[j].name
    ensures key in files[i].content && files[i].content[key] == files[j].content[key]
  {
    if IsKept(files, j) {
      i := j;
    } else {
      i := LeftOutIsCovered(files, j);
    }
  }

  // ------------------------------------------------------------------ the list

  /** A file is listed exactly when it is not kept, and then with a kept file that covers it. */
  lemma ListedIsLeftOut(files: seq<Comparable>, j: nat)
    requires j < |files|
    ensures KeptCovering(files, j, 0).Some? <==> !IsKept(files, j)
  {
    if !IsKept(files, j) {
      var i := LeftOutIsCovered(files, j);
    }
  }

  function LeftOutAt(files: seq<Comparable>, j: nat): seq<nat> {
    if IsKept(files, j) then [] else [j]
  }

  function LeftOut(files: seq<Comparable>, j: nat): seq<nat>
    requires j <= |files|
    decreases |files| - j
  {
    if j == |files| then [] else LeftOutAt(files, j) + LeftOut(files, j + 1)
  }

  lemma EntryIsLeftOut(files: seq<Comparable>, j: nat)
    requires j < |files|
    ensures AreLeftOut(files, LeftOutAt(files, j), EntryAt(files, j))
  {
    ListedIsLeftOut(files, j);
  }

  ghost predicate AreLeftOut(files: seq<Comparable>, js: seq<nat>, entries: seq<Covered>) {
    |js| == |entries| && forall k :: 0 <= k < |js| ==> IsLeftOut(files, js[k], entries[k])
  }

  lemma LeftOutJoin(files: seq<Comparable>, js: seq<nat>, entries: seq<Covered>, js': seq<nat>, entries': seq<Covered>)
    requires AreLeftOut(files, js, entries) && AreLeftOut(files, js', entries')
    ensures AreLeftOut(files, js + js', entries + entries')
  {
    var n := |js|;
    forall k | 0 <= k < |js + js'|
      ensures IsLeftOut(files, (js + js')[k], (entries + entries')[k])
    {
      if k < n {
        assert (js + js')[k] == js[k] && (entries + entries')[k] == entries[k];
      } else {
        assert (js + js')[k] == js'[k - n] && (entries + entries')[k] == entries'[k - n];
      }
    }
  }

  /** The list has the files left out, in order, each with a kept file of its reader that says all it says. */
  lemma {:induction false} CoveredAreLeftOut(files: seq<Comparable>, j: nat)
    requires j <= |files|
    ensures AreLeftOut(files, LeftOut(files, j), CoveredFrom(files, j))
    decreases |files| - j
  {
    if j < |files| {
      CoveredAreLeftOut(files, j + 1);
      EntryIsLeftOut(files, j);
      LeftOutJoin(files, LeftOutAt(files, j), EntryAt(files, j), LeftOut(files, j + 1), CoveredFrom(files, j + 1));
    }
  }

  /** Of the files read, the list has exactly those left out, in order, each with the file kept in its place. */
  lemma CoveredFiles(files: seq<Read>)
    ensures AreLeftOut(ComparablesOf(files), LeftOut(ComparablesOf(files), 0), ContractsCoveredByAnother(files))
  {
    CoveredAreLeftOut(ComparablesOf(files), 0);
  }

  /** The entry names the file at `j`, and the first kept file that covers it. */
  predicate IsLeftOut(files: seq<Comparable>, j: int, entry: Covered) {
    && 0 <= j < |files| && entry.name == files[j].name && entry.file == files[j].file
    && exists i :: 0 <= i < |files| && IsFirstCover(files, i, j) && entry.coveredBy == files[i].file
  }

  predicate IsFirstCover(files: seq<Comparable>, i: int, j: int) {
    && IsKept(files, i) && Covers(files, i, j)
    && forall k :: 0 <= k < i && IsKept(files, k) ==> !Covers(files, k, j)
  }

  // ------------------------------------------------------- the list, by the files read

  /** A file can be compared when it has a path and every summary in it has a key. */
  predicate CanCompare(r: Read) {
    r.content.Some? && r.file.Some?
  }

  /** Of two files that say the same: the one in fewer directories, or with fewer bytes, unknown bytes being the most,
      or with the earlier path. */
  ghost predicate Preferred(a: Read, b: Read)
    requires CanCompare(a) && CanCompare(b)
  {
    var slashesA, slashesB := multiset(a.file.value)['/'], multiset(b.file.value)['/'];
    || slashesA < slashesB
    || (slashesA == slashesB && a.bytes.Some? && (b.bytes.Some? ==> a.bytes.value < b.bytes.value))
    || (slashesA == slashesB && a.bytes == b.bytes && Precedes(a.file.value, b.file.value))
  }

  /** A file of the same reader has every boundary of the other, saying the same, and has more or is preferred. */
  ghost predicate Repeats(a: Read, b: Read) {
    && CanCompare(a) && CanCompare(b) && a.name == b.name
    && (forall key :: key in b.content.value ==> key in a.content.value && a.content.value[key] == b.content.value[key])
    && (|a.content.value| > |b.content.value| || Preferred(a, b))
  }

  ghost predicate Stays(files: seq<Read>, j: nat) {
    j < |files| && CanCompare(files[j]) && forall i: nat :: i < |files| && i != j ==> !Repeats(files[i], files[j])
  }

  /** The first file that stays and has all that the one at `j` says. */
  ghost predicate StandsIn(files: seq<Read>, i: nat, j: nat)
    requires j < |files|
  {
    && i != j && Stays(files, i) && Repeats(files[i], files[j])
    && forall k: nat :: k < i && k != j && Stays(files, k) ==> !Repeats(files[k], files[j])
  }

  /** Where the files that can be compared are. */
  function Positions(files: seq<Read>, from: nat): seq<nat>
    requires from <= |files|
    decreases |files| - from
  {
    if from == |files| then []
    else (if CanCompare(files[from]) then [from] else []) + Positions(files, from + 1)
  }

  predicate Ascends(js: seq<nat>) {
    forall a, b :: 0 <= a < b < |js| ==> js[a] < js[b]
  }

  /** `c` are the files that can be compared, in order, and `p` where they are. */
  ghost predicate ArePlaced(files: seq<Read>, from: nat, p: seq<nat>, c: seq<Comparable>) {
    && Ascends(p) && |p| == |c|
    && (forall j :: j in p <==> from <= j < |files| && CanCompare(files[j]))
    && forall k :: 0 <= k < |p| ==> p[k] < |files| && IsFile(files[p[k]], c[k])
  }

  predicate IsFile(r: Read, c: Comparable) {
    CanCompare(r) && c.name == r.name && c.file == r.file.value && c.content == r.content.value && c.bytes == r.bytes
  }

  lemma {:induction false} PositionsAre(files: seq<Read>, from: nat)
    requires from <= |files|
    ensures ArePlaced(files, from, Positions(files, from), ComparablesOf(files[from..]))
    decreases |files| - from
  {
    if from < |files| {
      PositionsAre(files, from + 1);
      var rest, c := Positions(files, from + 1), ComparablesOf(files[from + 1..]);
      assert files[from..][1..] == files[from + 1..] && files[from..][0] == files[from];
      assert forall k :: 0 <= k < |rest| ==> rest[k] in rest;
      if CanCompare(files[from]) { OneMorePlaced(files, from, rest, c); }
    }
  }

  lemma OneMorePlaced(files: seq<Read>, from: nat, p: seq<nat>, c: seq<Comparable>)
    requires from < |files| && CanCompare(files[from]) && ArePlaced(files, from + 1, p, c)
    requires forall k :: 0 <= k < |p| ==> p[k] in p
    ensures ArePlaced(files, from, [from] + p, ComparableOf(files[from]) + c)
  {
    var q, d := [from] + p, ComparableOf(files[from]) + c;
    forall k | 0 <= k < |q|
      ensures q[k] < |files| && IsFile(files[q[k]], d[k])
    {
      if k > 0 { assert q[k] == p[k - 1] && d[k] == c[k - 1]; }
    }
    FirstAscends([from], p, from);
  }

  lemma {:induction false} DepthIsSlashes(file: string)
    ensures Depth(file) == 1 + multiset(file)['/']
  {
    if file != "" {
      DepthIsSlashes(file[1..]);
      assert file == [file[0]] + file[1..];
    }
  }

  lemma KeptIsPreferred(a: Read, b: Read, x: Comparable, y: Comparable)
    requires IsFile(a, x) && IsFile(b, y)
    ensures KeptBefore(x, y) <==> Preferred(a, b)
  {
    DepthIsSlashes(x.file);
    DepthIsSlashes(y.file);
    BeforePrecedes(x.file, y.file);
  }

  /** What `Covers` says of the files that can be compared is what `Repeats` says of the files read. */
  lemma CoversIsRepeats(files: seq<Read>, p: seq<nat>, c: seq<Comparable>, a: nat, b: nat)
    requires ArePlaced(files, 0, p, c) && a < |c| && b < |c|
    ensures Covers(c, a, b) <==> a != b && Repeats(files[p[a]], files[p[b]])
  {
    KeptIsPreferred(files[p[a]], files[p[b]], c[a], c[b]);
  }

  lemma KeptStays(files: seq<Read>, p: seq<nat>, c: seq<Comparable>, b: nat)
    requires ArePlaced(files, 0, p, c) && b < |c|
    ensures IsKept(c, b) <==> Stays(files, p[b])
  {
    forall a: nat | a < |c|
      ensures Covers(c, a, b) <==> a != b && Repeats(files[p[a]], files[p[b]])
    {
      CoversIsRepeats(files, p, c, a, b);
    }
    if IsKept(c, b) {
      forall i: nat | i < |files| && i != p[b]
        ensures !Repeats(files[i], files[p[b]])
      {
        if CanCompare(files[i]) {
          var a :| 0 <= a < |p| && p[a] == i;
          assert !Covers(c, a, b);
        }
      }
    }
    if Stays(files, p[b]) {
      forall a | 0 <= a < |c|
        ensures !Covers(c, a, b)
      {
        if a != b { assert p[a] != p[b]; }
      }
    }
  }

  lemma FirstCoverStandsIn(files: seq<Read>, p: seq<nat>, c: seq<Comparable>, a: nat, b: nat)
    requires ArePlaced(files, 0, p, c) && a < |c| && b < |c| && IsFirstCover(c, a, b)
    ensures StandsIn(files, p[a], p[b])
  {
    CoversIsRepeats(files, p, c, a, b);
    KeptStays(files, p, c, a);
    forall k: nat | k < p[a] && k != p[b] && Stays(files, k)
      ensures !Repeats(files[k], files[p[b]])
    {
      NotBefore(files, p, c, a, b, k);
    }
  }

  lemma NotBefore(files: seq<Read>, p: seq<nat>, c: seq<Comparable>, a: nat, b: nat, k: nat)
    requires ArePlaced(files, 0, p, c) && a < |c| && b < |c| && IsFirstCover(c, a, b)
    requires k < p[a] && k != p[b] && Stays(files, k)
    ensures !Repeats(files[k], files[p[b]])
  {
    assert k in p;
    var x :| 0 <= x < |p| && p[x] == k;
    KeptStays(files, p, c, x);
    CoversIsRepeats(files, p, c, x, b);
    PlaceBefore(p, x, a);
  }

  lemma PlaceBefore(p: seq<nat>, x: nat, a: nat)
    requires Ascends(p) && x < |p| && a < |p| && p[x] < p[a]
    ensures x < a
  {
  }

  lemma {:induction false} LeftOutAre(files: seq<Comparable>, from: nat)
    requires from <= |files|
    ensures Ascends(LeftOut(files, from))
    ensures forall j :: j in LeftOut(files, from) <==> from <= j < |files| && !IsKept(files, j)
    decreases |files| - from
  {
    if from < |files| {
      LeftOutAre(files, from + 1);
      FirstAscends(LeftOutAt(files, from), LeftOut(files, from + 1), from);
    }
  }

  lemma FirstAscends(first: seq<nat>, rest: seq<nat>, from: nat)
    requires (first == [] || first == [from]) && Ascends(rest) && forall j :: j in rest ==> from < j
    ensures Ascends(first + rest) && forall j :: j in first + rest <==> j in first || j in rest
  {
    assert forall k :: 0 <= k < |rest| ==> rest[k] in rest;
  }

  /** The entry for the file left out at `j`, with the file at `i` in its place. */
  ghost predicate IsEntryFor(files: seq<Read>, i: nat, j: nat, entry: Covered) {
    && j < |files| && i < |files| && CanCompare(files[j]) && CanCompare(files[i]) && StandsIn(files, i, j)
    && entry == Covered(files[j].name, files[j].file.value, files[i].file.value)
  }

  /** The entries are for the files at these places. */
  ghost predicate AreEntriesFor(files: seq<Read>, js: seq<nat>, listed: seq<Covered>) {
    |js| == |listed| && forall k :: 0 <= k < |js| ==> HasEntry(files, js[k], listed[k])
  }

  ghost predicate HasEntry(files: seq<Read>, j: nat, entry: Covered) {
    exists i: nat :: IsEntryFor(files, i, j, entry)
  }

  /** Of the files read, the list has exactly those that can be compared and do not stay, in order, each with the first
      file that stays and says all it says. */
  lemma ListedExactly(files: seq<Read>) returns (js: seq<nat>)
    ensures Ascends(js) && AreEntriesFor(files, js, ContractsCoveredByAnother(files))
    ensures forall j: nat :: j in js <==> j < |files| && CanCompare(files[j]) && !Stays(files, j)
  {
    var p, c := Positions(files, 0), ComparablesOf(files);
    PositionsAre(files, 0);
    assert files[0..] == files;
    CoveredFiles(files);
    LeftOutAre(c, 0);
    js := EntriesFor(files, p, c, LeftOut(c, 0), ContractsCoveredByAnother(files));
  }

  lemma EntriesFor(files: seq<Read>, p: seq<nat>, c: seq<Comparable>, out: seq<nat>, listed: seq<Covered>)
    returns (js: seq<nat>)
    requires ArePlaced(files, 0, p, c) && Ascends(out) && AreLeftOut(c, out, listed)
    requires forall b :: b in out <==> 0 <= b < |c| && !IsKept(c, b)
    ensures Ascends(js) && AreEntriesFor(files, js, listed)
    ensures forall j: nat :: j in js <==> j < |files| && CanCompare(files[j]) && !Stays(files, j)
  {
    LeftOutPlaces(files, p, c, out);
    js := At(p, out);
    forall k | 0 <= k < |js|
      ensures HasEntry(files, js[k], listed[k])
    {
      EntryFor(files, p, c, out[k], listed[k]);
    }
  }

  /** The elements of `p` at these places. */
  function At(p: seq<nat>, places: seq<nat>): (r: seq<nat>)
    requires forall k :: 0 <= k < |places| ==> places[k] < |p|
    ensures |r| == |places| && forall k :: 0 <= k < |r| ==> r[k] == p[places[k]]
  {
    seq(|places|, (k: int) requires 0 <= k < |places| => p[places[k]])
  }

  lemma LeftOutPlaces(files: seq<Read>, p: seq<nat>, c: seq<Comparable>, out: seq<nat>)
    requires ArePlaced(files, 0, p, c) && Ascends(out)
    requires forall b :: b in out <==> 0 <= b < |c| && !IsKept(c, b)
    ensures forall k :: 0 <= k < |out| ==> out[k] < |p|
    ensures Ascends(At(p, out))
    ensures forall j: nat :: j in At(p, out) <==> j < |files| && CanCompare(files[j]) && !Stays(files, j)
  {
    forall k | 0 <= k < |out|
      ensures out[k] in out && out[k] < |p|
    {
    }
    forall j: nat
      ensures j in At(p, out) <==> j < |files| && CanCompare(files[j]) && !Stays(files, j)
    {
      if j in At(p, out) {
        var k :| 0 <= k < |out| && p[out[k]] == j;
        KeptStays(files, p, c, out[k]);
        assert p[out[k]] in p;
      }
      if j < |files| && CanCompare(files[j]) && !Stays(files, j) {
        assert j in p;
        var b :| 0 <= b < |p| && p[b] == j;
        KeptStays(files, p, c, b);
        assert b in out;
        var k :| 0 <= k < |out| && out[k] == b;
        assert At(p, out)[k] == j;
      }
    }
  }

  lemma EntryFor(files: seq<Read>, p: seq<nat>, c: seq<Comparable>, b: nat, entry: Covered)
    requires ArePlaced(files, 0, p, c) && b < |c| && IsLeftOut(c, b, entry)
    ensures HasEntry(files, p[b], entry)
  {
    var a :| 0 <= a < |c| && IsFirstCover(c, a, b) && entry.coveredBy == c[a].file;
    FirstCoverStandsIn(files, p, c, a, b);
    assert IsEntryFor(files, p[a], p[b], entry);
  }
}
