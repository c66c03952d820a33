// Manifests, their validity, the order of their entries and dependencies, and their
// canonical form (internal/config/manifest.go, path.go).
module Manifests {
  import opened ManifestBytes
  import opened Outcomes
  import Sorting

  type Int64 = x: int | -0x8000_0000_0000_0000 <= x <= MAX_INT64

  datatype EntryType = Regular | Directory | Symlink | Special | OtherType

  datatype EntryClass =
    | ManagedText | SensitiveMaterial | NotCandidate | InvalidText | FileLimit
    | DirectoryReadOnly | SymlinkInternal | SymlinkExternal | SymlinkUnavailable | SpecialReadOnly
    | OtherClass

  type Digest = d: Bytes | |d| == 32 witness Zeros(32)

  function Zeros(n: nat): (z: Bytes)
    ensures |z| == n && forall i | 0 <= i < n :: z[i] == 0
  {
    if n == 0 then [] else Zeros(n - 1) + [0]
  }

  const NO_DIGEST: Digest := Zeros(32)

  datatype Entry = Entry(path: Bytes, kind: EntryType, class_: EntryClass, mode: nat, size: Int64, digest: Digest,
                         linkTarget: Bytes)

  datatype Status = Resolved | Missing | External | Unresolved | ToSymlink | ToSpecial | Cycle | OtherStatus

  datatype Dependency = Dependency(source: Bytes, line: Int64, column: Int64, display: Bytes, target: Bytes,
                                   status: Status, cycle: bool)

  datatype Manifest = Manifest(schemaVersion: nat, policyVersion: nat, entries: seq<Entry>,
                               dependencies: seq<Dependency>, entryCount: int, managedBytes: Int64)

  datatype Limits = Limits(maxFileBytes: int, maxEntries: int, maxManagedBytes: Int64, maxPathBytes: int,
                           maxPathDepth: int, maxPathComponentBytes: int, maxIncludeEdges: int)

  const DEFAULT := Limits(0x20_0000, 4096, 0x200_0000, 1024, 64, 255, 16384)

  const SCHEMA_VERSION := 1
  const POLICY_VERSION := 1
  const MAX_MODE := 0x1FF
  const MAX_UINT32 := 0xFFFF_FFFF
  const MAX_INT64 := 0x7FFF_FFFF_FFFF_FFFF

  // ----- paths

  const SLASH: byte := 0x2F
  const BACKSLASH: byte := 0x5C

  function Components(path: Bytes): (parts: seq<Bytes>)
    ensures parts != []
  {
    if path == [] then [[]]
    else
      var rest := Components(path[1..]);
      if path[0] == SLASH then [[]] + rest else [[path[0]] + rest[0]] + rest[1..]
  }

  predicate ValidComponent(part: Bytes, limit: int) {
    part != [] && part != Ascii(".") && part != Ascii("..") && |part| <= limit
  }

  function ComponentLimit(limits: Limits): int {
    if limits.maxPathComponentBytes < 255 then limits.maxPathComponentBytes else 255
  }

  predicate ValidPath(path: Bytes, limits: Limits) {
    && ValidUtf8(path) && 0 < |path| <= limits.maxPathBytes && path[0] != SLASH
    && BACKSLASH !in path && 0 !in path
    && |Components(path)| <= limits.maxPathDepth
    && forall i | 0 <= i < |Components(path)| :: ValidComponent(Components(path)[i], ComponentLimit(limits))
  }

  // ----- validity

  predicate IsRegularClass(c: EntryClass) {
    c == ManagedText || c == SensitiveMaterial || c == NotCandidate || c == InvalidText || c == FileLimit
  }

  predicate IsSymlinkClass(c: EntryClass) {
    c == SymlinkInternal || c == SymlinkExternal || c == SymlinkUnavailable
  }

  predicate ValidEntry(e: Entry, limits: Limits) {
    && ValidPath(e.path, limits) && 0 <= e.size && e.mode <= MAX_MODE
    && (e.digest != NO_DIGEST <==> e.class_ == ManagedText)
    && (e.class_ == ManagedText ==> e.size <= limits.maxFileBytes)
    && match e.kind
       case Regular => e.linkTarget == [] && IsRegularClass(e.class_)
       case Directory => e.class_ == DirectoryReadOnly && e.mode == 0 && e.size == 0 && e.linkTarget == []
       case Symlink =>
         && e.mode == 0 && e.size == 0 && IsSymlinkClass(e.class_)
         && (if e.class_ == SymlinkInternal then ValidPath(e.linkTarget, limits) else e.linkTarget == [])
       case Special => e.class_ == SpecialReadOnly && e.mode == 0 && e.size == 0 && e.linkTarget == []
       case OtherType => false
  }

  const EXTERNAL_NAME := Ascii("external")
  const EXTERNAL_MARK := Ascii("[external]")
  const UNRESOLVED_NAME := Ascii("unresolved")
  const UNRESOLVED_MARK := Ascii("[unresolved]")

  /** The canonical form of a dependency, if it is valid. */
  function Canonical(d: Dependency, limits: Limits): (r: Option<Dependency>) {
    if !ValidPath(d.source, limits) || !(0 < d.line <= MAX_UINT32) || !(0 < d.column <= MAX_UINT32)
      || !ValidUtf8(d.display) || |d.display| > limits.maxPathBytes
    then None
    else match d.status
      case External =>
        if d.target == [] && (d.display == EXTERNAL_NAME || d.display == EXTERNAL_MARK) && !d.cycle
        then Some(d.(display := EXTERNAL_NAME)) else None
      case Unresolved =>
        if d.target == [] && (d.display == UNRESOLVED_NAME || d.display == UNRESOLVED_MARK) && !d.cycle
        then Some(d.(display := UNRESOLVED_NAME)) else None
      case OtherStatus => None
      case _ =>
        if ValidPath(d.display, limits) && ValidPath(d.target, limits)
          && d.cycle == (d.status == Cycle) then Some(d) else None
  }

  function Managed(entries: seq<Entry>): int {
    if entries == [] then 0
    else Managed(entries[..|entries| - 1])
         + if entries[|entries| - 1].class_ == ManagedText then entries[|entries| - 1].size else 0
  }

  predicate DistinctPaths(entries: seq<Entry>) {
    forall i, j | 0 <= i < j < |entries| :: entries[i].path != entries[j].path
  }

  /** Every string of the record has a 32-bit length. */
  predicate Recordable(d: Dependency) {
    |d.source| <= MAX_UINT32 && |d.display| <= MAX_UINT32 && |d.target| <= MAX_UINT32
  }

  predicate HasCanonical(d: Dependency, limits: Limits) {
    Canonical(d, limits).Some? && Recordable(Canonical(d, limits).value)
  }

  predicate AllCanonical(ds: seq<Dependency>, limits: Limits) {
    forall i | 0 <= i < |ds| :: HasCanonical(ds[i], limits)
  }

  function CanonicalForms(ds: seq<Dependency>, limits: Limits): (r: seq<Dependency>)
    requires AllCanonical(ds, limits)
    ensures |r| == |ds|
  {
    seq(|ds|, i requires 0 <= i < |ds| => Canonical(ds[i], limits).value)
  }

  predicate DistinctForms(ds: seq<Dependency>, limits: Limits) {
    forall i, j | 0 <= i < j < |ds| :: Canonical(ds[i], limits) != Canonical(ds[j], limits)
  }

  /** Schema, limits, every record, no path and no canonical dependency twice, exact totals. */
  predicate Valid(m: Manifest, limits: Limits) {
    && m.schemaVersion == SCHEMA_VERSION && m.policyVersion == POLICY_VERSION
    && 0 < limits.maxEntries && m.entryCount == |m.entries| <= limits.maxEntries
    && 0 < limits.maxIncludeEdges && |m.dependencies| <= limits.maxIncludeEdges
    && (forall i | 0 <= i < |m.entries| :: ValidEntry(m.entries[i], limits))
    && DistinctPaths(m.entries)
    && m.managedBytes == Managed(m.entries) <= limits.maxManagedBytes
    && AllCanonical(m.dependencies, limits) && DistinctForms(m.dependencies, limits)
  }

  // ----- record order

  function CompareEntries(a: Entry, b: Entry): int {
    Compare(a.path, b.path)
  }

  /** The order of the status names: cycle, external, missing, resolved, special, symlink, unresolved. */
  function StatusRank(s: Status): nat {
    match s
    case OtherStatus => 0
    case Cycle => 1
    case External => 2
    case Missing => 3
    case Resolved => 4
    case ToSpecial => 5
    case ToSymlink => 6
    case Unresolved => 7
  }

  function CompareDependencies(a: Dependency, b: Dependency): int {
    if Compare(a.source, b.source) != 0 then Compare(a.source, b.source)
    else if a.line != b.line then a.line - b.line
    else if a.column != b.column then a.column - b.column
    else if Compare(a.target, b.target) != 0 then Compare(a.target, b.target)
    else if a.status != b.status then StatusRank(a.status) - StatusRank(b.status)
    else Compare(a.display, b.display)
  }

  function EntryLess(): (Entry, Entry) -> bool {
    (a: Entry, b: Entry) => CompareEntries(a, b) < 0
  }

  function DependencyLess(): (Dependency, Dependency) -> bool {
    (a: Dependency, b: Dependency) => CompareDependencies(a, b) < 0
  }

  lemma EntryOrder()
    ensures Sorting.StrictOrder(EntryLess())
  {
    forall x: Entry, y: Entry, z: Entry
      ensures !EntryLess()(x, x)
      ensures EntryLess()(x, y) && EntryLess()(y, z) ==> EntryLess()(x, z)
    {
      CompareIsExact(x.path, x.path);
      if EntryLess()(x, y) && EntryLess()(y, z) { CompareIsTransitive(x.path, y.path, z.path); }
    }
  }

  lemma {:induction false} DependencyLessIsTransitive(x: Dependency, y: Dependency, z: Dependency)
    requires CompareDependencies(x, y) < 0 && CompareDependencies(y, z) < 0
    ensures CompareDependencies(x, z) < 0
  {
    hide Compare;
    CompareIsExact(x.source, y.source);
    CompareIsExact(y.source, z.source);
    CompareIsTransitive(x.source, y.source, z.source);
    if Compare(x.source, y.source) == 0 && Compare(y.source, z.source) == 0 && x.line == z.line
      && x.column == z.column {
      CompareIsExact(x.target, y.target);
      CompareIsExact(y.target, z.target);
      CompareIsTransitive(x.target, y.target, z.target);
      if x.target == y.target == z.target && x.status == y.status == z.status {
        CompareIsTransitive(x.display, y.display, z.display);
      }
    }
  }

  lemma DependencyOrder()
    ensures Sorting.StrictOrder(DependencyLess())
  {
    hide CompareDependencies;
    forall x: Dependency, y: Dependency, z: Dependency
      ensures !DependencyLess()(x, x)
      ensures DependencyLess()(x, y) && DependencyLess()(y, z) ==> DependencyLess()(x, z)
    {
      DependencyLessIsIrreflexive(x);
      if DependencyLess()(x, y) && DependencyLess()(y, z) { DependencyLessIsTransitive(x, y, z); }
    }
  }

  lemma {:induction false} DependencyLessIsIrreflexive(x: Dependency)
    ensures CompareDependencies(x, x) == 0
  {
    CompareIsExact(x.source, x.source);
    CompareIsExact(x.target, x.target);
    CompareIsExact(x.display, x.display);
  }

  /** Canonical dependencies that differ are ordered: the cycle flag follows from the status. */
  lemma {:induction false} CanonicalAreOrdered(x: Dependency, y: Dependency, limits: Limits)
    requires Canonical(x, limits) == Some(x) && Canonical(y, limits) == Some(y) && x != y
    ensures CompareDependencies(x, y) < 0 || CompareDependencies(y, x) < 0
  {
    hide Compare, ValidPath, ValidUtf8;
    CompareIsExact(x.source, y.source);
    CompareIsExact(x.target, y.target);
    CompareIsExact(x.display, y.display);
    assert x.cycle == (x.status == Cycle) && y.cycle == (y.status == Cycle);
  }

  // ----- the record order on text

  function StatusName(s: Status): Bytes {
    match s
    case Resolved => Ascii("resolved")
    case Missing => Ascii("missing")
    case External => Ascii("external")
    case Unresolved => Ascii("unresolved")
    case ToSymlink => Ascii("symlink")
    case ToSpecial => Ascii("special")
    case Cycle => Ascii("cycle")
    case OtherStatus => []
  }

  /** By source, line, column, target, the name of the status and the display, each only among equal ones before it. */
  ghost predicate ComesBefore(a: Dependency, b: Dependency) {
    || Precedes(a.source, b.source)
    || (a.source == b.source
        && (|| a.line < b.line
            || (a.line == b.line
                && (|| a.column < b.column
                    || (a.column == b.column
                        && (|| Precedes(a.target, b.target)
                            || (a.target == b.target
                                && (|| Precedes(StatusName(a.status), StatusName(b.status))
                                    || (a.status == b.status && Precedes(a.display, b.display))))))))))
  }

  lemma FirstBytesDecide(a: Bytes, b: Bytes, k: nat)
    requires k < |a| && k < |b| && a[..k] == b[..k] && a[k] < b[k]
    ensures Precedes(a, b) && !Precedes(b, a)
  {
    PrecedesIsTotal(a, b);
  }

  lemma StatusNames()
    ensures forall s | s != OtherStatus :: |StatusName(s)| >= 2
    ensures StatusName(Cycle)[0] == 0x63 && StatusName(External)[0] == 0x65 && StatusName(Missing)[0] == 0x6D
    ensures StatusName(Resolved)[0] == 0x72 && StatusName(ToSpecial)[0] == 0x73 && StatusName(ToSymlink)[0] == 0x73
    ensures StatusName(Unresolved)[0] == 0x75 && StatusName(ToSpecial)[1] == 0x70 && StatusName(ToSymlink)[1] == 0x79
    ensures StatusName(OtherStatus) == []
  {
  }

  /** The ranks are those of the names. */
  lemma RankIsByName(s: Status, t: Status)
    ensures StatusRank(s) < StatusRank(t) <==> Precedes(StatusName(s), StatusName(t))
  {
    StatusNames();
    hide StatusName, Precedes;
    var a, b := StatusName(s), StatusName(t);
    PrecedesIsTotal(a, b);
    if StatusRank(s) < StatusRank(t) { RankGivesName(s, t); }
    if StatusRank(t) < StatusRank(s) { RankGivesName(t, s); }
  }

  lemma RankGivesName(s: Status, t: Status)
    requires StatusRank(s) < StatusRank(t)
    ensures Precedes(StatusName(s), StatusName(t)) && StatusName(s) != StatusName(t)
  {
    StatusNames();
    hide StatusName, Precedes;
    var a, b := StatusName(s), StatusName(t);
    if s == OtherStatus {
      NothingComesFirst(b);
    } else if s == ToSpecial && t == ToSymlink {
      assert a[..1] == b[..1];
      FirstBytesDecide(a, b, 1);
    } else {
      assert a[..0] == b[..0];
      FirstBytesDecide(a, b, 0);
    }
  }

  lemma NothingComesFirst(b: Bytes)
    requires b != []
    ensures Precedes([], b)
  {
    var a: Bytes := [];
    assert a[..0] == b[..0];
  }

  lemma {:induction false} DependencyOrderOnText(a: Dependency, b: Dependency)
    ensures CompareDependencies(a, b) < 0 <==> ComesBefore(a, b)
  {
    hide Compare, Precedes, StatusRank, StatusName;
    CompareIsExact(a.source, b.source);
    CompareIsExact(a.target, b.target);
    CompareIsLexicographic(a.source, b.source);
    CompareIsLexicographic(a.target, b.target);
    CompareIsLexicographic(a.display, b.display);
    PrecedesIsTotal(a.source, a.source);
    PrecedesIsTotal(a.target, a.target);
    RankIsByName(a.status, b.status);
  }

  // ----- the normal form

  function Normal(m: Manifest): Manifest
    requires Valid(m, DEFAULT)
  {
    m.(entries := Sorting.Sorted(EntryLess(), m.entries),
       dependencies := Sorting.Sorted(DependencyLess(), CanonicalForms(m.dependencies, DEFAULT)))
  }
}
