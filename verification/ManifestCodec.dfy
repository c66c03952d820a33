// The canonical binary form of a manifest, printed and parsed (internal/config/manifest.go).
module ManifestCodec {
  import opened Manifests
  import opened ManifestBytes
  import opened Outcomes
  import Sorting

  // ----- code tables

  function KindCode(k: EntryType): byte {
    match k
    case Regular => 1
    case Directory => 2
    case Symlink => 3
    case Special => 4
    case OtherType => 0
  }

  function KindOf(code: nat): EntryType {
    match code
    case 1 => Regular
    case 2 => Directory
    case 3 => Symlink
    case 4 => Special
    case _ => OtherType
  }

  function ClassCode(c: EntryClass): byte {
    match c
    case ManagedText => 1
    case SensitiveMaterial => 2
    case NotCandidate => 3
    case InvalidText => 4
    case FileLimit => 5
    case DirectoryReadOnly => 6
    case SymlinkInternal => 7
    case SymlinkExternal => 8
    case SymlinkUnavailable => 9
    case SpecialReadOnly => 10
    case OtherClass => 0
  }

  function ClassOf(code: nat): EntryClass {
    match code
    case 1 => ManagedText
    case 2 => SensitiveMaterial
    case 3 => NotCandidate
    case 4 => InvalidText
    case 5 => FileLimit
    case 6 => DirectoryReadOnly
    case 7 => SymlinkInternal
    case 8 => SymlinkExternal
    case 9 => SymlinkUnavailable
    case 10 => SpecialReadOnly
    case _ => OtherClass
  }

  function StatusCode(s: Status): byte {
    match s
    case Resolved => 1
    case Missing => 2
    case External => 3
    case Unresolved => 4
    case ToSymlink => 5
    case ToSpecial => 6
    case Cycle => 7
    case OtherStatus => 0
  }

  function StatusOf(code: nat): Status {
    match code
    case 1 => Resolved
    case 2 => Missing
    case 3 => External
    case 4 => Unresolved
    case 5 => ToSymlink
    case 6 => ToSpecial
    case 7 => Cycle
    case _ => OtherStatus
  }

  // ----- entry records

  function EntryRecord(e: Entry): Bytes
    requires e.size >= 0
  {
    LengthPrefixed(e.path)
    + (BigEndian(KindCode(e.kind), 1)
    + (BigEndian(ClassCode(e.class_), 1)
    + (BigEndian(e.mode % 512, 4)
    + (BigEndian(e.size, 8)
    + (BigEndian(if e.class_ == ManagedText then 1 else 0, 1)
    + ((if e.class_ == ManagedText then e.digest else [])
    + LengthPrefixed(e.linkTarget)))))))
  }

  function ParseEntryRecord(record: Bytes, limits: Limits): Option<Entry> {
    var path :- ReadString(record, limits.maxPathBytes);
    if !ValidPath(path.value, limits) then None else
    var kind :- ReadInteger(path.rest, 1);
    var class_ :- ReadInteger(kind.rest, 1);
    var mode :- ReadInteger(class_.rest, 4);
    if mode.value > MAX_MODE then None else
    var size :- ReadInteger(mode.rest, 8);
    if size.value > MAX_INT64 then None else
    var flag :- ReadInteger(size.rest, 1);
    if flag.value > 1 then None else
    var digest :- ReadDigest(flag.rest, flag.value == 1);
    var target :- ReadString(digest.rest, limits.maxPathBytes);
    if target.rest != [] then None else
    var e := Entry(path.value, KindOf(kind.value), ClassOf(class_.value), mode.value, size.value,
                   digest.value, target.value);
    if ValidEntry(e, limits) then Some(e) else None
  }

  function ReadDigest(s: Bytes, present: bool): (r: Option<Read<Digest>>) {
    if !present then Some(Read(NO_DIGEST, s))
    else
      var d :- ReadBytes(s, 32);
      Some(Read(d.value, d.rest))
  }

  lemma ReadDigestBack(digest: Digest, present: bool, rest: Bytes)
    requires present || digest == NO_DIGEST
    ensures ReadDigest((if present then digest else []) + rest, present) == Some(Read(digest, rest))
  {
    if present { ReadBytesBack(digest, rest); } else { assert [] + rest == rest; }
  }

  lemma ReadStringAtEnd(s: Bytes, limit: int)
    requires |s| <= limit && |s| < Power(4) && ValidUtf8(s)
    ensures ReadString(LengthPrefixed(s), limit) == Some(Read(s, []))
  {
    ReadStringBack(s, limit, []);
    assert LengthPrefixed(s) + [] == LengthPrefixed(s);
  }

  lemma ValidEntryTarget(e: Entry, limits: Limits)
    requires ValidEntry(e, limits)
    ensures |e.linkTarget| <= limits.maxPathBytes && ValidUtf8(e.linkTarget)
    ensures ValidPath(e.path, limits) && |e.path| <= limits.maxPathBytes && ValidUtf8(e.path)
    ensures (e.class_ == ManagedText || e.digest == NO_DIGEST) && 0 <= e.size && e.mode % 512 == e.mode <= MAX_MODE
  {
  }

  lemma CodesBack(e: Entry)
    ensures KindOf(KindCode(e.kind)) == e.kind && ClassOf(ClassCode(e.class_)) == e.class_
  {
  }

  lemma EntryRoundTrip(e: Entry, limits: Limits)
    requires ValidEntry(e, limits) && limits.maxPathBytes <= MAX_UINT32
    ensures ParseEntryRecord(EntryRecord(e), limits) == Some(e)
  {
    hide ValidEntry, ValidPath, ValidUtf8, BigEndian, LengthPrefixed, Power, ReadString, ReadInteger, ReadDigest,
      KindOf, KindCode, ClassOf, ClassCode;
    ValidEntryTarget(e, limits);
    CodesBack(e);
    Powers();
    var managed := e.class_ == ManagedText;
    var flag := if managed then 1 else 0;
    var r7 := LengthPrefixed(e.linkTarget);
    var r6 := (if managed then e.digest else []) + r7;
    var r5 := BigEndian(flag, 1) + r6;
    var r4 := BigEndian(e.size, 8) + r5;
    var r3 := BigEndian(e.mode % 512, 4) + r4;
    var r2 := BigEndian(ClassCode(e.class_), 1) + r3;
    var r1 := BigEndian(KindCode(e.kind), 1) + r2;
    assert EntryRecord(e) == LengthPrefixed(e.path) + r1;
    ReadStringBack(e.path, limits.maxPathBytes, r1);
    ReadIntegerBack(KindCode(e.kind), 1, r2);
    ReadIntegerBack(ClassCode(e.class_), 1, r3);
    ReadIntegerBack(e.mode % 512, 4, r4);
    ReadIntegerBack(e.size, 8, r5);
    ReadIntegerBack(flag, 1, r6);
    ReadDigestBack(e.digest, managed, r7);
    ReadStringAtEnd(e.linkTarget, limits.maxPathBytes);
  }

  // ----- dependency records

  function DependencyRecord(d: Dependency): Bytes
    requires d.line >= 0 && d.column >= 0
  {
    LengthPrefixed(d.source)
    + (LengthPrefixed(d.display)
    + (LengthPrefixed(d.target)
    + (BigEndian(d.line, 4)
    + (BigEndian(d.column, 4)
    + (BigEndian(StatusCode(d.status), 1)
    + BigEndian(if d.cycle then 1 else 0, 1))))))
  }

  function ParseDependencyRecord(record: Bytes, limits: Limits): Option<Dependency> {
    var source :- ReadString(record, limits.maxPathBytes);
    var display :- ReadString(source.rest, limits.maxPathBytes);
    var target :- ReadString(display.rest, limits.maxPathBytes);
    var line :- ReadInteger(target.rest, 4);
    var column :- ReadInteger(line.rest, 4);
    var status :- ReadInteger(column.rest, 1);
    var cycle :- ReadInteger(status.rest, 1);
    if cycle.value > 1 || cycle.rest != [] || line.value > MAX_UINT32 || column.value > MAX_UINT32 then None
    else Canonical(Dependency(source.value, line.value, column.value, display.value, target.value,
                              StatusOf(status.value), cycle.value == 1), limits)
  }

  lemma CanonicalParts(d: Dependency, limits: Limits)
    requires Canonical(d, limits).Some?
    ensures |d.source| <= limits.maxPathBytes && |d.display| <= limits.maxPathBytes && |d.target| <= limits.maxPathBytes
    ensures ValidUtf8(d.source) && ValidUtf8(d.display) && ValidUtf8(d.target)
    ensures 0 < d.line <= MAX_UINT32 && 0 < d.column <= MAX_UINT32
    ensures StatusOf(StatusCode(d.status)) == d.status
  {
  }

  /** Any dependency with a canonical form is read back in that form. */
  lemma DependencyRoundTrip(d: Dependency, limits: Limits)
    requires Canonical(d, limits).Some? && Recordable(d)
    ensures d.line >= 0 && d.column >= 0 && ParseDependencyRecord(DependencyRecord(d), limits) == Canonical(d, limits)
  {
    hide Canonical, ValidPath, ValidUtf8, BigEndian, LengthPrefixed, Power, ReadString, ReadInteger, StatusOf,
      StatusCode;
    CanonicalParts(d, limits);
    Powers();
    var flag := if d.cycle then 1 else 0;
    var r6 := BigEndian(flag, 1);
    var r5 := BigEndian(StatusCode(d.status), 1) + r6;
    var r4 := BigEndian(d.column, 4) + r5;
    var r3 := BigEndian(d.line, 4) + r4;
    var r2 := LengthPrefixed(d.target) + r3;
    var r1 := LengthPrefixed(d.display) + r2;
    assert DependencyRecord(d) == LengthPrefixed(d.source) + r1;
    ReadStringBack(d.source, limits.maxPathBytes, r1);
    ReadStringBack(d.display, limits.maxPathBytes, r2);
    ReadStringBack(d.target, limits.maxPathBytes, r3);
    ReadIntegerBack(d.line, 4, r4);
    ReadIntegerBack(d.column, 4, r5);
    ReadIntegerBack(StatusCode(d.status), 1, r6);
    ReadIntegerBack(flag, 1, []);
    assert r6 + [] == r6;
  }

  // ----- the whole payload

  const MAGIC := Ascii("NUXM")

  function Records(records: seq<Bytes>): Bytes {
    if records == [] then [] else LengthPrefixed(records[0]) + Records(records[1..])
  }

  predicate Printable(m: Manifest) {
    && m.managedBytes >= 0
    && (forall i | 0 <= i < |m.entries| :: m.entries[i].size >= 0)
    && forall i | 0 <= i < |m.dependencies| :: m.dependencies[i].line >= 0 && m.dependencies[i].column >= 0
  }

  function EntryRecords(entries: seq<Entry>): (r: seq<Bytes>)
    requires forall i | 0 <= i < |entries| :: entries[i].size >= 0
    ensures |r| == |entries|
  {
    seq(|entries|, i requires 0 <= i < |entries| => EntryRecord(entries[i]))
  }

  function DependencyRecords(ds: seq<Dependency>): (r: seq<Bytes>)
    requires forall i | 0 <= i < |ds| :: ds[i].line >= 0 && ds[i].column >= 0
    ensures |r| == |ds|
  {
    seq(|ds|, i requires 0 <= i < |ds| => DependencyRecord(ds[i]))
  }

  function Header(m: Manifest): Bytes
    requires m.managedBytes >= 0
  {
    MAGIC + (BigEndian(m.schemaVersion, 2) + (BigEndian(m.policyVersion, 2) + (BigEndian(|m.entries|, 4)
    + (BigEndian(m.managedBytes, 8) + BigEndian(|m.dependencies|, 4)))))
  }

  function Encode(m: Manifest): Bytes
    requires Printable(m)
  {
    Header(m) + (Records(EntryRecords(m.entries)) + Records(DependencyRecords(m.dependencies)))
  }

  function Marshal(m: Manifest): Option<Bytes> {
    if !Valid(m, DEFAULT) then None
    else if Printable(Normal(m)) then Some(Encode(Normal(m)))
    else None
  }

  function ReadEntries(s: Bytes, n: nat, limits: Limits): Option<Read<seq<Entry>>>
    decreases n
  {
    if n == 0 then Some(Read([], s))
    else
      var record :- ReadRecord(s);
      var first :- ParseEntryRecord(record.value, limits);
      var rest :- ReadEntries(record.rest, n - 1, limits);
      Some(Read([first] + rest.value, rest.rest))
  }

  function ReadDependencies(s: Bytes, n: nat, limits: Limits): Option<Read<seq<Dependency>>>
    decreases n
  {
    if n == 0 then Some(Read([], s))
    else
      var record :- ReadRecord(s);
      var first :- ParseDependencyRecord(record.value, limits);
      var rest :- ReadDependencies(record.rest, n - 1, limits);
      Some(Read([first] + rest.value, rest.rest))
  }

  /** The two's-complement value that 64-bit arithmetic leaves. */
  function Wrap64(n: int): int {
    (n + 0x8000_0000_0000_0000) % 0x1_0000_0000_0000_0000 - 0x8000_0000_0000_0000
  }

  function MaximumPayload(limits: Limits): int {
    if limits.maxEntries < 0 || limits.maxIncludeEdges < 0 || limits.maxPathBytes < 0 then 0
    else
      var entryBytes := Wrap64(limits.maxEntries * Wrap64(64 + Wrap64(2 * limits.maxPathBytes)));
      var dependencyBytes := Wrap64(limits.maxIncludeEdges * Wrap64(32 + Wrap64(3 * limits.maxPathBytes)));
      var total := Wrap64(Wrap64(24 + entryBytes) + dependencyBytes);
      if total < 0 then MAX_INT64 else total
  }

  /** Adjacent records in order, as a check of a sorted slice sees them. */
  predicate InOrder(m: Manifest) {
    && (forall i | 0 < i < |m.entries| :: CompareEntries(m.entries[i - 1], m.entries[i]) <= 0)
    && forall i | 0 < i < |m.dependencies| :: CompareDependencies(m.dependencies[i - 1], m.dependencies[i]) <= 0
  }

  /** The fixed part of a payload: counts and totals, and the records after it. */
  datatype Head = Head(entryCount: nat, managedBytes: nat, dependencyCount: nat)

  function ReadHead(payload: Bytes, limits: Limits): Option<Read<Head>> {
    var magic :- ReadBytes(payload, 4);
    if magic.value != MAGIC then None else
    var schema :- ReadInteger(magic.rest, 2);
    var policy :- ReadInteger(schema.rest, 2);
    if schema.value != SCHEMA_VERSION || policy.value != POLICY_VERSION then None else
    var entryCount :- ReadInteger(policy.rest, 4);
    var managed :- ReadInteger(entryCount.rest, 8);
    if managed.value > MAX_INT64 then None else
    var dependencyCount :- ReadInteger(managed.rest, 4);
    if limits.maxEntries <= 0 || entryCount.value > limits.maxEntries || limits.maxIncludeEdges <= 0
      || dependencyCount.value > limits.maxIncludeEdges || entryCount.value > MAX_UINT32 then None
    else Some(Read(Head(entryCount.value, managed.value, dependencyCount.value), dependencyCount.rest))
  }

  function Parse(payload: Bytes, limits: Limits): Option<Manifest> {
    if |payload| > MaximumPayload(limits) then None else
    var head :- ReadHead(payload, limits);
    var entries :- ReadEntries(head.rest, head.value.entryCount, limits);
    var dependencies :- ReadDependencies(entries.rest, head.value.dependencyCount, limits);
    var m := Manifest(SCHEMA_VERSION, POLICY_VERSION, entries.value, dependencies.value, head.value.entryCount,
                      if head.value.managedBytes <= MAX_INT64 then head.value.managedBytes else 0);
    if dependencies.rest == [] && Valid(m, limits) && InOrder(m) then Some(m) else None
  }

  // ----- the normal form is valid

  lemma SortedEntries(m: Manifest)
    requires Valid(m, DEFAULT)
    ensures Sorting.Increasing(EntryLess(), Normal(m).entries) && multiset(Normal(m).entries) == multiset(m.entries)
    ensures Sorting.Comparable(EntryLess(), m.entries)
  {
    EntryOrder();
    forall i, j | 0 <= i < j < |m.entries|
      ensures EntryLess()(m.entries[i], m.entries[j]) || EntryLess()(m.entries[j], m.entries[i])
    {
      CompareIsExact(m.entries[i].path, m.entries[j].path);
    }
    hide Sorting.StrictOrder;
    Sorting.SortIncreases(EntryLess(), m.entries);
    Sorting.SortKeeps(EntryLess(), m.entries);
  }

  lemma NamesAreValid()
    ensures ValidUtf8(EXTERNAL_NAME) && ValidUtf8(UNRESOLVED_NAME)
    ensures |EXTERNAL_NAME| == 8 && |EXTERNAL_MARK| == 10 && |UNRESOLVED_NAME| == 10 && |UNRESOLVED_MARK| == 12
  {
    hide ValidUtf8;
    assert "external" == ['e', 'x', 't', 'e', 'r', 'n', 'a', 'l'];
    assert "unresolved" == ['u', 'n', 'r', 'e', 's', 'o', 'l', 'v', 'e', 'd'];
    AsciiIsValid(EXTERNAL_NAME);
    AsciiIsValid(UNRESOLVED_NAME);
  }

  lemma CanonicalIsStable(d: Dependency, limits: Limits)
    requires Canonical(d, limits).Some?
    ensures Canonical(Canonical(d, limits).value, limits) == Canonical(d, limits)
  {
    hide ValidPath, ValidUtf8, Ascii;
    NamesAreValid();
  }

  lemma SortedDependencies(m: Manifest)
    requires Valid(m, DEFAULT)
    ensures Sorting.Increasing(DependencyLess(), Normal(m).dependencies)
    ensures multiset(Normal(m).dependencies) == multiset(CanonicalForms(m.dependencies, DEFAULT))
    ensures Sorting.Comparable(DependencyLess(), CanonicalForms(m.dependencies, DEFAULT))
  {
    hide Canonical, CompareDependencies, Sorting.StrictOrder;
    DependencyOrder();
    var forms := CanonicalForms(m.dependencies, DEFAULT);
    forall i, j | 0 <= i < j < |forms| ensures DependencyLess()(forms[i], forms[j])
        || DependencyLess()(forms[j], forms[i]) {
      CanonicalIsStable(m.dependencies[i], DEFAULT);
      CanonicalIsStable(m.dependencies[j], DEFAULT);
      CanonicalAreOrdered(forms[i], forms[j], DEFAULT);
    }
    Sorting.SortIncreases(DependencyLess(), forms);
    Sorting.SortKeeps(DependencyLess(), forms);
  }

  lemma {:induction false} ManagedConcat(a: seq<Entry>, b: seq<Entry>)
    ensures Managed(a + b) == Managed(a) + Managed(b)
    decreases |b|
  {
    if b == [] {
      assert a + b == a;
    } else {
      assert (a + b)[..|a + b| - 1] == a + b[..|b| - 1];
      ManagedConcat(a, b[..|b| - 1]);
    }
  }

  lemma {:induction false} ManagedOfInsert(e: Entry, s: seq<Entry>)
    ensures Managed(Sorting.Insert(EntryLess(), e, s)) == Managed([e]) + Managed(s)
    decreases |s|
  {
    if s == [] || EntryLess()(e, s[0]) {
      ManagedConcat([e], s);
    } else {
      ManagedOfInsert(e, s[1..]);
      ManagedConcat([s[0]], Sorting.Insert(EntryLess(), e, s[1..]));
      ManagedConcat([s[0]], s[1..]);
      assert s == [s[0]] + s[1..];
    }
  }

  lemma {:induction false} ManagedOfSorted(s: seq<Entry>)
    ensures Managed(Sorting.Sorted(EntryLess(), s)) == Managed(s)
    decreases |s|
  {
    if s != [] {
      ManagedOfSorted(s[1..]);
      ManagedOfInsert(s[0], Sorting.Sorted(EntryLess(), s[1..]));
      ManagedConcat([s[0]], s[1..]);
      assert s == [s[0]] + s[1..];
    }
  }

  lemma NormalEntries(m: Manifest)
    requires Valid(m, DEFAULT)
    ensures var es := Normal(m).entries;
      |es| == |m.entries| && DistinctPaths(es) && Managed(es) == m.managedBytes && forall i | 0 <= i < |es| ::
        ValidEntry(es[i], DEFAULT)
  {
    hide ValidEntry, Managed, Sorting.Sorted, Sorting.Comparable;
    var es := Normal(m).entries;
    SortedEntries(m);
    ManagedOfSorted(m.entries);
    Sorting.SameMembers(es, m.entries);
    forall i | 0 <= i < |es| ensures ValidEntry(es[i], DEFAULT) {
      assert es[i] in m.entries;
    }
    forall i, j | 0 <= i < j < |es| ensures es[i].path != es[j].path {
      assert EntryLess()(es[i], es[j]);
      CompareIsExact(es[i].path, es[j].path);
    }
  }

  lemma NormalDependencies(m: Manifest)
    requires Valid(m, DEFAULT)
    ensures var ds := Normal(m).dependencies;
      |ds| == |m.dependencies| && (forall i | 0 <= i < |ds| :: Canonical(ds[i], DEFAULT) == Some(ds[i]))
        && DistinctForms(ds, DEFAULT)
  {
    hide Canonical, CompareDependencies, Sorting.Sorted, Sorting.Comparable;
    var ds, forms := Normal(m).dependencies, CanonicalForms(m.dependencies, DEFAULT);
    SortedDependencies(m);
    Sorting.SameMembers(ds, forms);
    forall i | 0 <= i < |ds| ensures Canonical(ds[i], DEFAULT) == Some(ds[i]) {
      assert ds[i] in forms;
      var k :| 0 <= k < |forms| && forms[k] == ds[i];
      CanonicalIsStable(m.dependencies[k], DEFAULT);
    }
    forall i, j | 0 <= i < j < |ds| ensures Canonical(ds[i], DEFAULT) != Canonical(ds[j], DEFAULT) {
      assert DependencyLess()(ds[i], ds[j]);
      DependencyLessIsIrreflexive(ds[i]);
    }
  }

  lemma NormalInOrder(m: Manifest)
    requires Valid(m, DEFAULT)
    ensures InOrder(Normal(m))
  {
    hide Canonical, CompareDependencies, CompareEntries, Sorting.Sorted, Sorting.Comparable, Valid;
    SortedEntries(m);
    SortedDependencies(m);
    var n := Normal(m);
    forall i | 0 < i < |n.entries| ensures CompareEntries(n.entries[i - 1], n.entries[i]) <= 0 {
      assert EntryLess()(n.entries[i - 1], n.entries[i]);
    }
    forall i | 0 < i < |n.dependencies| ensures CompareDependencies(n.dependencies[i - 1], n.dependencies[i]) <= 0 {
      assert DependencyLess()(n.dependencies[i - 1], n.dependencies[i]);
    }
  }

  /** Valid parts make a valid, printable manifest. */
  lemma PartsAreValid(n: Manifest)
    requires n.schemaVersion == SCHEMA_VERSION && n.policyVersion == POLICY_VERSION
    requires n.entryCount == |n.entries| <= DEFAULT.maxEntries
    requires |n.dependencies| <= DEFAULT.maxIncludeEdges
    requires n.managedBytes == Managed(n.entries) <= DEFAULT.maxManagedBytes
    requires DistinctPaths(n.entries) && DistinctForms(n.dependencies, DEFAULT)
    requires forall i | 0 <= i < |n.entries| :: ValidEntry(n.entries[i], DEFAULT)
    requires forall i | 0 <= i < |n.dependencies| :: Canonical(n.dependencies[i], DEFAULT) == Some(n.dependencies[i])
    ensures Valid(n, DEFAULT) && Printable(n)
  {
    hide DistinctPaths, DistinctForms, Managed, Canonical, ValidEntry;
    forall i | 0 <= i < |n.dependencies|
      ensures n.dependencies[i].line >= 0 && n.dependencies[i].column >= 0 && HasCanonical(n.dependencies[i], DEFAULT)
    {
      CanonicalParts(n.dependencies[i], DEFAULT);
    }
    forall i | 0 <= i < |n.entries| ensures n.entries[i].size >= 0 {
      ValidEntryTarget(n.entries[i], DEFAULT);
    }
    ManagedIsNat(n.entries);
  }

  /** The normal form is a valid manifest in record order. */
  lemma NormalIsValid(m: Manifest)
    requires Valid(m, DEFAULT)
    ensures Valid(Normal(m), DEFAULT) && InOrder(Normal(m)) && Printable(Normal(m))
    ensures forall i | 0 <= i < |Normal(m).dependencies| ::
        Canonical(Normal(m).dependencies[i], DEFAULT) == Some(Normal(m).dependencies[i])
  {
    hide InOrder, Managed, DistinctPaths, DistinctForms, Canonical, ValidEntry, AllCanonical, Sorting.Sorted;
    NormalEntries(m);
    NormalDependencies(m);
    NormalInOrder(m);
    PartsAreValid(Normal(m));
  }

  lemma {:induction false} ManagedIsNat(es: seq<Entry>)
    requires forall i | 0 <= i < |es| :: es[i].size >= 0
    ensures Managed(es) >= 0
    decreases |es|
  {
    if es != [] { ManagedIsNat(es[..|es| - 1]); }
  }

  // ----- sizes

  lemma EntryRecordSize(e: Entry, limits: Limits)
    requires ValidEntry(e, limits)
    ensures |EntryRecord(e)| <= 60 + 2 * limits.maxPathBytes
  {
    ValidEntryTarget(e, limits);
    hide ValidEntry, BigEndian, ValidPath, ValidUtf8;
  }

  lemma DependencyRecordSize(d: Dependency, limits: Limits)
    requires Canonical(d, limits).Some?
    ensures d.line >= 0 && d.column >= 0 && |DependencyRecord(d)| <= 28 + 3 * limits.maxPathBytes
  {
    CanonicalParts(d, limits);
    hide Canonical, BigEndian, ValidPath, ValidUtf8;
  }

  lemma {:induction false} RecordsSize(records: seq<Bytes>, bound: nat)
    requires forall i | 0 <= i < |records| :: |records[i]| + 4 <= bound
    ensures |Records(records)| <= |records| * bound
    decreases |records|
  {
    if records != [] {
      RecordsSize(records[1..], bound);
      assert |records| * bound == bound + (|records| - 1) * bound;
    }
  }

  lemma DefaultMaximum()
    ensures MaximumPayload(DEFAULT) == 24 + 4096 * 2112 + 16384 * 3104
  {
    WrapSmall(2 * 1024);
    WrapSmall(64 + 2 * 1024);
    WrapSmall(4096 * 2112);
    WrapSmall(3 * 1024);
    WrapSmall(32 + 3 * 1024);
    WrapSmall(16384 * 3104);
    WrapSmall(24 + 4096 * 2112);
    WrapSmall(24 + 4096 * 2112 + 16384 * 3104);
    hide Wrap64;
  }

  lemma WrapSmall(n: nat)
    requires n <= MAX_INT64
    ensures Wrap64(n) == n
  {
  }

  lemma EncodeSize(n: Manifest)
    requires Printable(n) && |n.entries| <= 4096 && |n.dependencies| <= 16384
    requires forall i | 0 <= i < |n.entries| :: ValidEntry(n.entries[i], DEFAULT)
    requires forall i | 0 <= i < |n.dependencies| :: Canonical(n.dependencies[i], DEFAULT).Some?
    ensures |Encode(n)| <= 24 + 4096 * 2112 + 16384 * 3104
  {
    hide Canonical, ValidEntry, EntryRecord, DependencyRecord, Records, BigEndian;
    var es, ds := EntryRecords(n.entries), DependencyRecords(n.dependencies);
    forall i | 0 <= i < |es| ensures |es[i]| + 4 <= 2112 { EntryRecordSize(n.entries[i], DEFAULT); }
    forall i | 0 <= i < |ds| ensures |ds[i]| + 4 <= 3104 { DependencyRecordSize(n.dependencies[i], DEFAULT); }
    RecordsSize(es, 2112);
    RecordsSize(ds, 3104);
    assert |Header(n)| == 24;
  }

  lemma ValidParts(m: Manifest)
    requires Valid(m, DEFAULT)
    ensures |m.entries| <= 4096 && |m.dependencies| <= 16384
    ensures m.schemaVersion == SCHEMA_VERSION && m.policyVersion == POLICY_VERSION && m.entryCount == |m.entries|
    ensures forall i | 0 <= i < |m.entries| :: ValidEntry(m.entries[i], DEFAULT)
    ensures forall i | 0 <= i < |m.dependencies| :: Canonical(m.dependencies[i], DEFAULT).Some?
  {
    hide Canonical, ValidEntry, Managed, DistinctPaths, DistinctForms;
  }

  /** No canonical payload exceeds the size the parser accepts. */
  lemma MarshalFits(m: Manifest)
    requires Valid(m, DEFAULT)
    ensures Marshal(m).Some? && |Marshal(m).value| <= MaximumPayload(DEFAULT)
  {
    hide Normal, Valid, InOrder, Canonical, ValidEntry, Encode, Printable, MaximumPayload;
    NormalIsValid(m);
    ValidParts(Normal(m));
    EncodeSize(Normal(m));
    DefaultMaximum();
  }

  // ----- reading back

  lemma {:induction false} ReadEntriesBack(entries: seq<Entry>, rest: Bytes)
    requires forall i | 0 <= i < |entries| :: entries[i].size >= 0 && ValidEntry(entries[i], DEFAULT)
    ensures ReadEntries(Records(EntryRecords(entries)) + rest, |entries|, DEFAULT) == Some(Read(entries, rest))
    decreases |entries|
  {
    hide ValidEntry, EntryRecord, ParseEntryRecord, ReadRecord, LengthPrefixed;
    if entries == [] {
      assert [] + rest == rest;
    } else {
      var record, tail := EntryRecord(entries[0]), Records(EntryRecords(entries[1..])) + rest;
      assert EntryRecords(entries)[1..] == EntryRecords(entries[1..]);
      assert Records(EntryRecords(entries)) + rest == LengthPrefixed(record) + tail;
      EntryRecordSize(entries[0], DEFAULT);
      Powers();
      ReadRecordBack(record, tail);
      EntryRoundTrip(entries[0], DEFAULT);
      ReadEntriesBack(entries[1..], rest);
      assert entries == [entries[0]] + entries[1..];
    }
  }

  lemma {:induction false} ReadDependenciesBack(ds: seq<Dependency>, rest: Bytes)
    requires forall i | 0 <= i < |ds| ::
        ds[i].line >= 0 && ds[i].column >= 0 && Canonical(ds[i], DEFAULT) == Some(ds[i])
    ensures ReadDependencies(Records(DependencyRecords(ds)) + rest, |ds|, DEFAULT) == Some(Read(ds, rest))
    decreases |ds|
  {
    hide Canonical, DependencyRecord, ParseDependencyRecord, ReadRecord, LengthPrefixed;
    if ds == [] {
      assert [] + rest == rest;
    } else {
      var record, tail := DependencyRecord(ds[0]), Records(DependencyRecords(ds[1..])) + rest;
      assert DependencyRecords(ds)[1..] == DependencyRecords(ds[1..]);
      assert Records(DependencyRecords(ds)) + rest == LengthPrefixed(record) + tail;
      DependencyRecordSize(ds[0], DEFAULT);
      CanonicalParts(ds[0], DEFAULT);
      Powers();
      ReadRecordBack(record, tail);
      DependencyRoundTrip(ds[0], DEFAULT);
      ReadDependenciesBack(ds[1..], rest);
      assert ds == [ds[0]] + ds[1..];
    }
  }

  lemma ReadHeadBack(m: Manifest, body: Bytes)
    requires Valid(m, DEFAULT) && m.managedBytes >= 0
    ensures ReadHead(Header(m) + body, DEFAULT) == Some(Read(Head(|m.entries|, m.managedBytes, |m.dependencies|), body))
  {
    hide ValidEntry, AllCanonical, DistinctForms, DistinctPaths, Managed, BigEndian, ReadInteger, Ascii;
    Powers();
    var r5 := BigEndian(|m.dependencies|, 4) + body;
    var r4 := BigEndian(m.managedBytes, 8) + r5;
    var r3 := BigEndian(|m.entries|, 4) + r4;
    var r2 := BigEndian(m.policyVersion, 2) + r3;
    var r1 := BigEndian(m.schemaVersion, 2) + r2;
    assert Header(m) + body == MAGIC + r1;
    assert |MAGIC| == 4;
    ReadBytesBack(MAGIC, r1);
    ReadIntegerBack(m.schemaVersion, 2, r2);
    ReadIntegerBack(m.policyVersion, 2, r3);
    ReadIntegerBack(|m.entries|, 4, r4);
    ReadIntegerBack(m.managedBytes, 8, r5);
    ReadIntegerBack(|m.dependencies|, 4, body);
  }

  /** Parsing a printed valid manifest in record order gives it back. */
  lemma EncodeRoundTrip(n: Manifest)
    requires Valid(n, DEFAULT) && InOrder(n) && Printable(n) && |Encode(n)| <= MaximumPayload(DEFAULT)
    requires forall i | 0 <= i < |n.dependencies| :: Canonical(n.dependencies[i], DEFAULT) == Some(n.dependencies[i])
    ensures Parse(Encode(n), DEFAULT) == Some(n)
  {
    hide InOrder, Valid, Canonical, ValidEntry, MaximumPayload, ReadHead, Header, Records, EntryRecords,
      DependencyRecords, ReadEntries, ReadDependencies;
    ValidParts(n);
    var es, ds := Records(EntryRecords(n.entries)), Records(DependencyRecords(n.dependencies));
    ReadHeadBack(n, es + ds);
    ReadEntriesBack(n.entries, ds);
    ReadDependenciesBack(n.dependencies, []);
    assert ds + [] == ds;
  }

  /** Parsing the marshalled bytes gives the manifest back in normal form. */
  lemma MarshalRoundTrip(m: Manifest)
    requires Valid(m, DEFAULT)
    ensures Marshal(m).Some? && Parse(Marshal(m).value, DEFAULT) == Some(Normal(m))
  {
    hide Normal, Valid, InOrder, Canonical, Encode, Printable, Parse, MaximumPayload;
    NormalIsValid(m);
    MarshalFits(m);
    EncodeRoundTrip(Normal(m));
  }

  /** The bytes do not depend on the order of entries and dependencies, nor on how external targets are written. */
  lemma MarshalIgnoresOrder(a: Manifest, b: Manifest)
    requires Valid(a, DEFAULT) && Valid(b, DEFAULT)
    requires multiset(a.entries) == multiset(b.entries)
    requires multiset(CanonicalForms(a.dependencies, DEFAULT)) == multiset(CanonicalForms(b.dependencies, DEFAULT))
    ensures Normal(a) == Normal(b) && Marshal(a) == Marshal(b)
  {
    hide ValidEntry, Canonical, DistinctPaths, DistinctForms, Managed, Sorting.StrictOrder, Sorting.Sorted,
      Sorting.Increasing, Sorting.Comparable, CompareDependencies, CompareEntries;
    EntryOrder();
    DependencyOrder();
    SortedEntries(a);
    SortedEntries(b);
    SortedDependencies(a);
    SortedDependencies(b);
    Sorting.SortIgnoresOrder(EntryLess(), a.entries, b.entries);
    Sorting.SortIgnoresOrder(DependencyLess(), CanonicalForms(a.dependencies, DEFAULT),
                             CanonicalForms(b.dependencies, DEFAULT));
    ManagedOfSorted(a.entries);
    ManagedOfSorted(b.entries);
    Sorting.SameSize(a.entries, b.entries);
  }

  /** Two valid manifests have the same bytes exactly when they have the same normal form. */
  lemma MarshalIsInjective(a: Manifest, b: Manifest)
    requires Valid(a, DEFAULT) && Valid(b, DEFAULT)
    ensures Marshal(a) == Marshal(b) <==> Normal(a) == Normal(b)
  {
    hide Valid, Normal, Parse, Encode, Printable;
    MarshalRoundTrip(a);
    MarshalRoundTrip(b);
  }

  lemma DependencyOrderIsAntisymmetric(x: Dependency, y: Dependency)
    requires CompareDependencies(x, y) < 0
    ensures CompareDependencies(y, x) > 0
  {
    hide Compare;
    CompareIsExact(x.source, y.source);
    CompareIsExact(x.target, y.target);
    CompareIsExact(x.display, y.display);
  }

  /** A valid manifest of canonical dependencies in record order is its own normal form. */
  lemma OrderedIsNormal(m: Manifest)
    requires Valid(m, DEFAULT) && InOrder(m)
    requires forall i | 0 <= i < |m.dependencies| :: Canonical(m.dependencies[i], DEFAULT) == Some(m.dependencies[i])
    ensures Normal(m) == m
  {
    hide Canonical, ValidEntry, Managed, CompareDependencies, Sorting.StrictOrder, Sorting.Sorted, Sorting.Increasing;
    var es, ds := m.entries, m.dependencies;
    assert CanonicalForms(ds, DEFAULT) == ds;
    EntryOrder();
    DependencyOrder();
    forall i | 0 < i < |es| ensures EntryLess()(es[i - 1], es[i]) {
      CompareIsExact(es[i - 1].path, es[i].path);
    }
    forall i | 0 < i < |ds| ensures DependencyLess()(ds[i - 1], ds[i]) {
      assert Canonical(ds[i - 1], DEFAULT) != Canonical(ds[i], DEFAULT);
      CanonicalAreOrdered(ds[i - 1], ds[i], DEFAULT);
      if CompareDependencies(ds[i], ds[i - 1]) < 0 { DependencyOrderIsAntisymmetric(ds[i], ds[i - 1]); }
    }
    Sorting.AdjacentIncreases(EntryLess(), es);
    Sorting.AdjacentIncreases(DependencyLess(), ds);
    Sorting.SortOfIncreasing(EntryLess(), es);
    Sorting.SortOfIncreasing(DependencyLess(), ds);
  }

  lemma {:induction false} ReadIsCanonical(s: Bytes, n: nat, limits: Limits)
    requires ReadDependencies(s, n, limits).Some?
    ensures var ds := ReadDependencies(s, n, limits).value.value;
      forall i | 0 <= i < |ds| :: Canonical(ds[i], limits) == Some(ds[i])
    decreases n
  {
    hide Canonical, ParseDependencyRecord, ReadRecord;
    if n > 0 {
      var record := ReadRecord(s).value;
      var first := ParseDependencyRecord(record.value, limits).value;
      ParsedIsCanonical(record.value, first, limits);
      ReadIsCanonical(record.rest, n - 1, limits);
    }
  }

  lemma ParsedIsCanonical(record: Bytes, d: Dependency, limits: Limits)
    requires ParseDependencyRecord(record, limits) == Some(d)
    ensures Canonical(d, limits) == Some(d)
  {
    hide Canonical, ReadString, ReadInteger, StatusOf;
    var source := ReadString(record, limits.maxPathBytes).value;
    var display := ReadString(source.rest, limits.maxPathBytes).value;
    var target := ReadString(display.rest, limits.maxPathBytes).value;
    var line := ReadInteger(target.rest, 4).value;
    var column := ReadInteger(line.rest, 4).value;
    var status := ReadInteger(column.rest, 1).value;
    var cycle := ReadInteger(status.rest, 1).value;
    CanonicalIsStable(Dependency(source.value, line.value, column.value, display.value, target.value,
                                 StatusOf(status.value), cycle.value == 1), limits);
  }

  /** Whatever the parser accepts is valid and already in normal form, so printing and parsing it changes nothing. */
  lemma ParsedIsNormal(payload: Bytes, m: Manifest)
    requires Parse(payload, DEFAULT) == Some(m)
    ensures Valid(m, DEFAULT) && Normal(m) == m && Marshal(m).Some? && Parse(Marshal(m).value, DEFAULT) == Some(m)
  {
    ParsedParts(payload, m, DEFAULT);
    hide Parse, Valid, InOrder, Normal, Marshal, Canonical;
    OrderedIsNormal(m);
    MarshalRoundTrip(m);
  }

  lemma ParsedParts(payload: Bytes, m: Manifest, limits: Limits)
    requires Parse(payload, limits) == Some(m)
    ensures Valid(m, limits) && InOrder(m)
    ensures forall i | 0 <= i < |m.dependencies| :: Canonical(m.dependencies[i], limits) == Some(m.dependencies[i])
  {
    hide Valid, InOrder, ReadHead, ReadEntries, ReadDependencies, MaximumPayload, Canonical;
    var head := ReadHead(payload, limits).value;
    var entries := ReadEntries(head.rest, head.value.entryCount, limits).value;
    ReadIsCanonical(entries.rest, head.value.dependencyCount, limits);
  }

  /**
   * The bytes are not determined by the manifest: the parser also accepts, for an
   * unmanaged entry, a digest flag followed by the zero digest, and for a dependency
   * outside the tree its bracketed name.
   */
  function LooseRecord(e: Entry): Bytes
    requires e.size >= 0
  {
    LengthPrefixed(e.path)
    + (BigEndian(KindCode(e.kind), 1)
    + (BigEndian(ClassCode(e.class_), 1)
    + (BigEndian(e.mode % 512, 4)
    + (BigEndian(e.size, 8)
    + (BigEndian(1, 1)
    + (e.digest
    + LengthPrefixed(e.linkTarget)))))))
  }

  lemma LooseRecordIsRead(e: Entry, limits: Limits)
    requires ValidEntry(e, limits) && limits.maxPathBytes <= MAX_UINT32
    ensures ParseEntryRecord(LooseRecord(e), limits) == Some(e)
    ensures LooseRecord(e) == EntryRecord(e) <==> e.class_ == ManagedText
  {
    hide ValidEntry, ValidPath, ValidUtf8, BigEndian, LengthPrefixed, Power, ReadString, ReadInteger, ReadDigest,
      KindOf, KindCode, ClassOf, ClassCode;
    ValidEntryTarget(e, limits);
    CodesBack(e);
    Powers();
    var r7 := LengthPrefixed(e.linkTarget);
    var r6 := e.digest + r7;
    var r5 := BigEndian(1, 1) + r6;
    var r4 := BigEndian(e.size, 8) + r5;
    var r3 := BigEndian(e.mode % 512, 4) + r4;
    var r2 := BigEndian(ClassCode(e.class_), 1) + r3;
    var r1 := BigEndian(KindCode(e.kind), 1) + r2;
    assert LooseRecord(e) == LengthPrefixed(e.path) + r1;
    ReadStringBack(e.path, limits.maxPathBytes, r1);
    ReadIntegerBack(KindCode(e.kind), 1, r2);
    ReadIntegerBack(ClassCode(e.class_), 1, r3);
    ReadIntegerBack(e.mode % 512, 4, r4);
    ReadIntegerBack(e.size, 8, r5);
    ReadIntegerBack(1, 1, r6);
    ReadDigestBack(e.digest, true, r7);
    ReadStringAtEnd(e.linkTarget, limits.maxPathBytes);
    LooseIsLonger(e);
  }

  lemma LooseIsLonger(e: Entry)
    requires e.size >= 0
    ensures |LooseRecord(e)| == |EntryRecord(e)| + if e.class_ == ManagedText then 0 else 32
  {
    hide BigEndian, LengthPrefixed;
  }

  // ----- the bytes of a payload

  const KINDS := [OtherType, Regular, Directory, Symlink, Special]
  const CLASSES := [OtherClass, ManagedText, SensitiveMaterial, NotCandidate, InvalidText, FileLimit,
                    DirectoryReadOnly, SymlinkInternal, SymlinkExternal, SymlinkUnavailable, SpecialReadOnly]
  const STATUSES := [OtherStatus, Resolved, Missing, External, Unresolved, ToSymlink, ToSpecial, Cycle]

  /** A string with its length of four bytes before it starts at p. */
  predicate StringAt(record: Bytes, p: nat, s: Bytes) {
    p + 4 + |s| <= |record| && Value(record[p..p + 4]) == |s| && record[p + 4..p + 4 + |s|] == s
  }

  predicate NumberAt(record: Bytes, p: nat, width: nat, n: nat) {
    p + width <= |record| && Value(record[p..p + width]) == n
  }

  /** The fields of an entry in its record, by position. */
  predicate EntryFields(record: Bytes, e: Entry)
    requires e.size >= 0
  {
    var p, digest := 4 + |e.path|, if e.class_ == ManagedText then e.digest else [];
    && StringAt(record, 0, e.path)
    && p + 15 + |digest| <= |record|
    && record[p] < |KINDS| && KINDS[record[p]] == e.kind
    && record[p + 1] < |CLASSES| && CLASSES[record[p + 1]] == e.class_
    && NumberAt(record, p + 2, 4, e.mode) && NumberAt(record, p + 6, 8, e.size)
    && record[p + 14] == (if e.class_ == ManagedText then 1 else 0) && record[p + 15..p + 15 + |digest|] == digest
    && StringAt(record, p + 15 + |digest|, e.linkTarget) && |record| == p + 19 + |digest| + |e.linkTarget|
  }

  /** The fields of a dependency in its record, by position. */
  predicate DependencyFields(record: Bytes, d: Dependency)
    requires d.line >= 0 && d.column >= 0
  {
    var q := 4 + |d.source|;
    var r := q + 4 + |d.display|;
    var p := r + 4 + |d.target|;
    && StringAt(record, 0, d.source) && StringAt(record, q, d.display) && StringAt(record, r, d.target)
    && |record| == p + 10 && NumberAt(record, p, 4, d.line) && NumberAt(record, p + 4, 4, d.column)
    && record[p + 8] < |STATUSES| && STATUSES[record[p + 8]] == d.status
    && record[p + 9] == if d.cycle then 1 else 0
  }

  lemma PieceAt(record: Bytes, before: Bytes, piece: Bytes, after: Bytes)
    requires record == before + (piece + after)
    ensures record[|before|..|before| + |piece|] == piece && record[|before| + |piece|..] == after
    ensures record == (before + piece) + after
  {
  }

  lemma StringPiece(record: Bytes, before: Bytes, s: Bytes, after: Bytes)
    requires record == before + (LengthPrefixed(s) + after) && |s| < Power(4)
    ensures StringAt(record, |before|, s) && record == (before + LengthPrefixed(s)) + after
    ensures |LengthPrefixed(s)| == 4 + |s|
  {
    hide BigEndian, Power, Value;
    LengthPrefixedThen(s, after);
    PieceAt(record, before, BigEndian(|s|, 4), s + after);
    PieceAt(record, before + BigEndian(|s|, 4), s, after);
    ValueOfBigEndian(|s|, 4);
    assert before + BigEndian(|s|, 4) + s == before + LengthPrefixed(s);
  }

  lemma NumberPiece(record: Bytes, before: Bytes, n: nat, width: nat, after: Bytes)
    requires record == before + (BigEndian(n, width) + after) && n < Power(width)
    ensures NumberAt(record, |before|, width, n) && record == (before + BigEndian(n, width)) + after
  {
    hide BigEndian, Power, Value;
    PieceAt(record, before, BigEndian(n, width), after);
    ValueOfBigEndian(n, width);
  }

  lemma BytePiece(record: Bytes, before: Bytes, n: byte, after: Bytes)
    requires record == before + (BigEndian(n, 1) + after)
    ensures |before| < |record| && record[|before|] == n && record == (before + BigEndian(n, 1)) + after
  {
    assert BigEndian(n, 1) == [n] by { assert BigEndian(n / 256, 0) == []; }
    PieceAt(record, before, [n], after);
  }

  /** The five fields of fixed width in the middle of an entry record. */
  function FixedFields(e: Entry): (f: Bytes)
    requires e.size >= 0
    ensures |f| == 15
  {
    BigEndian(KindCode(e.kind), 1)
    + (BigEndian(ClassCode(e.class_), 1)
    + (BigEndian(e.mode % 512, 4)
    + (BigEndian(e.size, 8)
    + BigEndian(if e.class_ == ManagedText then 1 else 0, 1))))
  }

  lemma FixedLayout(e: Entry)
    requires 0 <= e.size && e.mode <= MAX_MODE
    ensures var f := FixedFields(e);
      && f[0] == KindCode(e.kind) && f[1] == ClassCode(e.class_) && NumberAt(f, 2, 4, e.mode)
      && NumberAt(f, 6, 8, e.size) && f[14] == if e.class_ == ManagedText then 1 else 0
  {
    hide BigEndian, Power, KindCode, ClassCode, NumberAt;
    Powers();
    var flag := if e.class_ == ManagedText then 1 else 0;
    var f, r5 := FixedFields(e), BigEndian(flag, 1);
    var r4 := BigEndian(e.size, 8) + r5;
    var r3 := BigEndian(e.mode % 512, 4) + r4;
    var r2 := BigEndian(ClassCode(e.class_), 1) + r3;
    assert f == [] + (BigEndian(KindCode(e.kind), 1) + r2);
    BytePiece(f, [], KindCode(e.kind), r2);
    var b2 := [] + BigEndian(KindCode(e.kind), 1);
    BytePiece(f, b2, ClassCode(e.class_), r3);
    var b3 := b2 + BigEndian(ClassCode(e.class_), 1);
    NumberPiece(f, b3, e.mode % 512, 4, r4);
    var b4 := b3 + BigEndian(e.mode % 512, 4);
    NumberPiece(f, b4, e.size, 8, r5);
    var b5 := b4 + BigEndian(e.size, 8);
    assert r5 == BigEndian(flag, 1) + [];
    BytePiece(f, b5, flag, []);
  }

  /** The fields of a piece are fields of the record that holds it. */
  lemma PieceMoves(record: Bytes, p: nat, piece: Bytes, at: nat, width: nat, n: nat)
    requires p + |piece| <= |record| && record[p..p + |piece|] == piece
    ensures NumberAt(piece, at, width, n) ==> NumberAt(record, p + at, width, n)
    ensures at < |piece| ==> record[p + at] == piece[at]
  {
    hide Value;
    if NumberAt(piece, at, width, n) {
      var x, y := piece[at..at + width], record[p + at..p + at + width];
      forall i | 0 <= i < width ensures x[i] == y[i] {
        assert record[p..p + |piece|][at + i] == record[p + (at + i)];
      }
      assert x == y;
    }
    assert at < |piece| ==> record[p..p + |piece|][at] == record[p + at];
  }

  lemma RecordParts(e: Entry)
    requires e.size >= 0
    ensures EntryRecord(e) == [] + (LengthPrefixed(e.path)
        + (FixedFields(e) + ((if e.class_ == ManagedText then e.digest else []) + (LengthPrefixed(e.linkTarget) + []))))
  {
    hide BigEndian, KindCode, ClassCode, LengthPrefixed;
    var digest := if e.class_ == ManagedText then e.digest else [];
    var flag := if e.class_ == ManagedText then 1 else 0;
    Regroup(BigEndian(KindCode(e.kind), 1), BigEndian(ClassCode(e.class_), 1), BigEndian(e.mode % 512, 4),
            BigEndian(e.size, 8), BigEndian(flag, 1), digest + LengthPrefixed(e.linkTarget));
    assert LengthPrefixed(e.linkTarget) + [] == LengthPrefixed(e.linkTarget);
  }

  lemma Regroup(a: Bytes, b: Bytes, c: Bytes, d: Bytes, e: Bytes, rest: Bytes)
    ensures a + (b + (c + (d + (e + rest)))) == (a + (b + (c + (d + e)))) + rest
  {
  }

  lemma EntryLayout(e: Entry, limits: Limits)
    requires ValidEntry(e, limits) && limits.maxPathBytes <= MAX_UINT32
    ensures EntryFields(EntryRecord(e), e)
  {
    hide ValidEntry, ValidPath, ValidUtf8, LengthPrefixed, Power, KindCode, ClassCode, StringAt, NumberAt, FixedFields,
      EntryRecord;
    ValidEntryTarget(e, limits);
    CodesInTables(e);
    Powers();
    var record, f, digest := EntryRecord(e), FixedFields(e), if e.class_ == ManagedText then e.digest else [];
    var r3 := LengthPrefixed(e.linkTarget) + [];
    var r2 := digest + r3;
    RecordParts(e);
    StringPiece(record, [], e.path, f + r2);
    var b1 := [] + LengthPrefixed(e.path);
    PieceAt(record, b1, f, r2);
    var b2 := b1 + f;
    PieceAt(record, b2, digest, r3);
    var b3 := b2 + digest;
    StringPiece(record, b3, e.linkTarget, []);
    FixedLayout(e);
    var p := |b1|;
    PieceMoves(record, p, f, 0, 1, 0);
    PieceMoves(record, p, f, 1, 1, 0);
    PieceMoves(record, p, f, 2, 4, e.mode);
    PieceMoves(record, p, f, 6, 8, e.size);
    PieceMoves(record, p, f, 14, 1, 0);
  }

  lemma CodesInTables(e: Entry)
    ensures KindCode(e.kind) < |KINDS| && KINDS[KindCode(e.kind)] == e.kind
    ensures ClassCode(e.class_) < |CLASSES| && CLASSES[ClassCode(e.class_)] == e.class_
  {
  }

  /** The four fields of fixed width at the end of a dependency record. */
  function FixedEnd(d: Dependency): (f: Bytes)
    requires d.line >= 0 && d.column >= 0
    ensures |f| == 10
  {
    BigEndian(d.line, 4)
    + (BigEndian(d.column, 4)
    + (BigEndian(StatusCode(d.status), 1)
    + BigEndian(if d.cycle then 1 else 0, 1)))
  }

  lemma FixedEndLayout(d: Dependency)
    requires 0 <= d.line <= MAX_UINT32 && 0 <= d.column <= MAX_UINT32
    ensures var f := FixedEnd(d);
      && NumberAt(f, 0, 4, d.line) && NumberAt(f, 4, 4, d.column) && f[8] == StatusCode(d.status)
      && f[9] == if d.cycle then 1 else 0
  {
    hide BigEndian, Power, StatusCode, NumberAt;
    Powers();
    var flag := if d.cycle then 1 else 0;
    var f, r4 := FixedEnd(d), BigEndian(flag, 1);
    var r3 := BigEndian(StatusCode(d.status), 1) + r4;
    var r2 := BigEndian(d.column, 4) + r3;
    assert f == [] + (BigEndian(d.line, 4) + r2);
    NumberPiece(f, [], d.line, 4, r2);
    var b2 := [] + BigEndian(d.line, 4);
    NumberPiece(f, b2, d.column, 4, r3);
    var b3 := b2 + BigEndian(d.column, 4);
    BytePiece(f, b3, StatusCode(d.status), r4);
    var b4 := b3 + BigEndian(StatusCode(d.status), 1);
    assert r4 == BigEndian(flag, 1) + [];
    BytePiece(f, b4, flag, []);
  }

  lemma DependencyParts(d: Dependency)
    requires d.line >= 0 && d.column >= 0
    ensures DependencyRecord(d) == [] + (LengthPrefixed(d.source)
        + (LengthPrefixed(d.display) + (LengthPrefixed(d.target) + FixedEnd(d))))
  {
    hide BigEndian, LengthPrefixed, StatusCode;
  }

  lemma ThreeStrings(record: Bytes, s: Bytes, t: Bytes, u: Bytes, rest: Bytes)
    requires record == [] + (LengthPrefixed(s) + (LengthPrefixed(t) + (LengthPrefixed(u) + rest)))
    requires |s| < Power(4) && |t| < Power(4) && |u| < Power(4)
    ensures var p := 12 + |s| + |t| + |u|;
      && StringAt(record, 0, s) && StringAt(record, 4 + |s|, t) && StringAt(record, 8 + |s| + |t|, u)
      && |record| == p + |rest| && record[p..p + |rest|] == rest
  {
    hide LengthPrefixed, Power, StringAt;
    var r2 := LengthPrefixed(u) + rest;
    StringPiece(record, [], s, LengthPrefixed(t) + r2);
    var b1 := [] + LengthPrefixed(s);
    StringPiece(record, b1, t, r2);
    var b2 := b1 + LengthPrefixed(t);
    StringPiece(record, b2, u, rest);
    var b3 := b2 + LengthPrefixed(u);
    assert record == b3 + (rest + []) by { assert rest + [] == rest; }
    PieceAt(record, b3, rest, []);
  }

  lemma DependencyLayout(d: Dependency, limits: Limits)
    requires Canonical(d, limits).Some? && Recordable(d)
    ensures d.line >= 0 && d.column >= 0 && DependencyFields(DependencyRecord(d), d)
  {
    hide Canonical, LengthPrefixed, Power, StatusCode, StringAt, NumberAt, DependencyRecord, FixedEnd;
    CanonicalParts(d, limits);
    StatusInTable(d.status);
    Powers();
    var record, f := DependencyRecord(d), FixedEnd(d);
    DependencyParts(d);
    ThreeStrings(record, d.source, d.display, d.target, f);
    var p := 12 + |d.source| + |d.display| + |d.target|;
    FixedEndLayout(d);
    PieceMoves(record, p, f, 0, 4, d.line);
    PieceMoves(record, p, f, 4, 4, d.column);
    PieceMoves(record, p, f, 8, 1, 0);
    PieceMoves(record, p, f, 9, 1, 0);
  }

  lemma StatusInTable(s: Status)
    ensures StatusCode(s) < |STATUSES| && STATUSES[StatusCode(s)] == s
  {
  }

  /** Magic and versions, the counts and the total, then every record with its length before it. */
  ghost predicate Written(payload: Bytes, n: Manifest)
    requires Printable(n)
  {
    && HeadFields(payload, n)
    && payload[24..] == Records(EntryRecords(n.entries)) + Records(DependencyRecords(n.dependencies))
  }

  lemma EncodeIsWritten(n: Manifest)
    requires Valid(n, DEFAULT) && Printable(n)
    ensures Written(Encode(n), n)
  {
    hide AllCanonical, DistinctForms, DistinctPaths, Managed, ValidEntry, BigEndian, Records, NumberAt;
    Powers();
    assert MAGIC == [0x4E, 0x55, 0x58, 0x4D];
    var body := Records(EntryRecords(n.entries)) + Records(DependencyRecords(n.dependencies));
    var r5 := BigEndian(|n.dependencies|, 4) + body;
    var r4 := BigEndian(n.managedBytes, 8) + r5;
    var r3 := BigEndian(|n.entries|, 4) + r4;
    var payload := Encode(n);
    VersionBytes();
    assert payload == [0x4E, 0x55, 0x58, 0x4D, 0, 1, 0, 1] + r3;
    NumberPiece(payload, [0x4E, 0x55, 0x58, 0x4D, 0, 1, 0, 1], |n.entries|, 4, r4);
    var b4 := [0x4E, 0x55, 0x58, 0x4D, 0, 1, 0, 1] + BigEndian(|n.entries|, 4);
    NumberPiece(payload, b4, n.managedBytes, 8, r5);
    var b5 := b4 + BigEndian(n.managedBytes, 8);
    NumberPiece(payload, b5, |n.dependencies|, 4, body);
    PieceAt(payload, b5, BigEndian(|n.dependencies|, 4), body);
  }

  lemma VersionBytes()
    ensures BigEndian(1, 2) == [0, 1]
  {
    assert BigEndian(0, 1) == BigEndian(0, 0) + [0];
  }

  /** Paths ascend byte by byte, and dependencies field by field. */
  ghost predicate RecordsAscend(n: Manifest) {
    && (forall i | 0 < i < |n.entries| :: Precedes(n.entries[i - 1].path, n.entries[i].path))
    && forall i | 0 < i < |n.dependencies| :: ComesBefore(n.dependencies[i - 1], n.dependencies[i])
  }

  lemma NormalAscends(m: Manifest)
    requires Valid(m, DEFAULT)
    ensures RecordsAscend(Normal(m))
  {
    hide Canonical, CompareDependencies, Compare, Precedes, ComesBefore, Valid, Sorting.Sorted, Sorting.Comparable;
    SortedEntries(m);
    SortedDependencies(m);
    var n := Normal(m);
    forall i | 0 < i < |n.entries| ensures Precedes(n.entries[i - 1].path, n.entries[i].path) {
      assert EntryLess()(n.entries[i - 1], n.entries[i]);
      CompareIsLexicographic(n.entries[i - 1].path, n.entries[i].path);
    }
    forall i | 0 < i < |n.dependencies| ensures ComesBefore(n.dependencies[i - 1], n.dependencies[i]) {
      assert DependencyLess()(n.dependencies[i - 1], n.dependencies[i]);
      DependencyOrderOnText(n.dependencies[i - 1], n.dependencies[i]);
    }
  }

  lemma ParsedAscends(payload: Bytes, m: Manifest, limits: Limits)
    requires Parse(payload, limits) == Some(m)
    ensures RecordsAscend(m)
  {
    hide Parse, Canonical, CompareDependencies, Compare, Precedes, ComesBefore, ValidEntry, Managed;
    ParsedParts(payload, m, limits);
    forall i | 0 < i < |m.entries| ensures Precedes(m.entries[i - 1].path, m.entries[i].path) {
      CompareIsExact(m.entries[i - 1].path, m.entries[i].path);
      CompareIsLexicographic(m.entries[i - 1].path, m.entries[i].path);
    }
    forall i | 0 < i < |m.dependencies| ensures ComesBefore(m.dependencies[i - 1], m.dependencies[i]) {
      var x, y := m.dependencies[i - 1], m.dependencies[i];
      assert Canonical(x, limits) != Canonical(y, limits);
      CanonicalAreOrdered(x, y, limits);
      if CompareDependencies(y, x) < 0 { DependencyOrderIsAntisymmetric(y, x); }
      DependencyOrderOnText(x, y);
    }
  }

  /** Magic and versions, the counts and the total. */
  predicate HeadFields(payload: Bytes, n: Manifest) {
    && |payload| >= 24 && payload[..8] == [0x4E, 0x55, 0x58, 0x4D, 0, 1, 0, 1]
    && NumberAt(payload, 8, 4, |n.entries|) && n.managedBytes >= 0 && NumberAt(payload, 12, 8, n.managedBytes)
    && NumberAt(payload, 20, 4, |n.dependencies|)
  }

  /** A dependency as it is written: targets outside the tree lose the brackets of their display. */
  function Displayed(d: Dependency): Dependency {
    if d.display == Ascii("[external]") && d.status == External then d.(display := Ascii("external"))
    else if d.display == Ascii("[unresolved]") && d.status == Unresolved then d.(display := Ascii("unresolved"))
    else d
  }

  function AllDisplayed(ds: seq<Dependency>): seq<Dependency> {
    seq(|ds|, i requires 0 <= i < |ds| => Displayed(ds[i]))
  }

  lemma CanonicalIsDisplayed(ds: seq<Dependency>, limits: Limits)
    requires AllCanonical(ds, limits)
    ensures CanonicalForms(ds, limits) == AllDisplayed(ds)
  {
    hide ValidPath, ValidUtf8, Ascii;
    forall i | 0 <= i < |ds| ensures CanonicalForms(ds, limits)[i] == Displayed(ds[i]) {
      assert HasCanonical(ds[i], limits);
    }
  }

  /** The same totals and the same records, with the displays as they are written. */
  predicate SameRecords(n: Manifest, m: Manifest) {
    && n.entryCount == m.entryCount && n.managedBytes == m.managedBytes
    && multiset(n.entries) == multiset(m.entries)
    && multiset(n.dependencies) == multiset(AllDisplayed(m.dependencies))
  }

  // ----- the codec itself

  lemma RecordIsInjective(x: Dependency, y: Dependency, limits: Limits)
    requires HasCanonical(x, limits) && HasCanonical(y, limits)
    ensures var a, b := Canonical(x, limits).value, Canonical(y, limits).value;
      a.line >= 0 && a.column >= 0 && b.line >= 0 && b.column >= 0
        && (DependencyRecord(a) == DependencyRecord(b) ==> a == b)
  {
    hide Canonical, DependencyRecord, ParseDependencyRecord;
    var a, b := Canonical(x, limits).value, Canonical(y, limits).value;
    CanonicalIsStable(x, limits);
    CanonicalIsStable(y, limits);
    DependencyRoundTrip(a, limits);
    DependencyRoundTrip(b, limits);
  }

  method ParseRelativePath(raw: Bytes, limits: Limits) returns (ok: bool)
    ensures ok <==> ValidPath(raw, limits)
  {
    if !ValidUtf8(raw) || raw == [] {
      return false;
    }
    if limits.maxPathBytes <= 0 || |raw| > limits.maxPathBytes || raw[0] == 0x2F || 0x5C in raw || 0 in raw {
      return false;
    }
    var components := Components(raw);
    if limits.maxPathDepth <= 0 || |components| > limits.maxPathDepth {
      return false;
    }
    var maxComponentBytes := if limits.maxPathComponentBytes < 255 then limits.maxPathComponentBytes else 255;
    if maxComponentBytes <= 0 {
      assert !ValidComponent(components[0], maxComponentBytes);
      return false;
    }
    for i := 0 to |components|
      invariant forall k | 0 <= k < i :: ValidComponent(components[k], maxComponentBytes)
    {
      var part := components[i];
      if part == [] || part == [0x2E] || part == [0x2E, 0x2E] || |part| > maxComponentBytes {
        assert Ascii(".") == [0x2E] && Ascii("..") == [0x2E, 0x2E];
        assert !ValidComponent(components[i], maxComponentBytes);
        return false;
      }
      assert Ascii(".") == [0x2E] && Ascii("..") == [0x2E, 0x2E];
    }
    return true;
  }

  method ValidateEntry(entry: Entry, limits: Limits) returns (ok: bool)
    ensures ok <==> ValidEntry(entry, limits)
  {
    hide ValidPath, ValidUtf8;
    ok := ParseRelativePath(entry.path, limits);
    if !ok || entry.size < 0 || entry.mode > 511 {
      return false;
    }
    if entry.digest != NO_DIGEST && entry.class_ != ManagedText {
      return false;
    }
    if entry.class_ == ManagedText && (entry.digest == NO_DIGEST || entry.size > limits.maxFileBytes) {
      return false;
    }
    match entry.kind
    case Regular =>
      return entry.linkTarget == []
        && entry.class_ in {ManagedText, SensitiveMaterial, NotCandidate, InvalidText, FileLimit};
    case Directory =>
      return entry.class_ == DirectoryReadOnly && entry.mode == 0 && entry.size == 0 && entry.linkTarget == [];
    case Symlink =>
      if entry.mode != 0 || entry.size != 0
        || entry.class_ !in {SymlinkInternal, SymlinkExternal, SymlinkUnavailable} {
        return false;
      }
      if entry.class_ == SymlinkInternal {
        ok := ParseRelativePath(entry.linkTarget, limits);
        return ok;
      }
      return entry.linkTarget == [];
    case Special =>
      return entry.class_ == SpecialReadOnly && entry.mode == 0 && entry.size == 0 && entry.linkTarget == [];
    case OtherType =>
      return false;
  }

  method CanonicalDependency(d: Dependency, limits: Limits) returns (r: Option<Dependency>)
    ensures r == Canonical(d, limits)
  {
    hide ValidPath, ValidUtf8;
    var ok := ParseRelativePath(d.source, limits);
    if !ok || d.line <= 0 || d.column <= 0 || d.line > 0xFFFF_FFFF || d.column > 0xFFFF_FFFF {
      return None;
    }
    if !ValidUtf8(d.display) || |d.display| > limits.maxPathBytes {
      return None;
    }
    match d.status
    case External =>
      if d.target != [] || d.display !in {Ascii("external"), Ascii("[external]")} || d.cycle {
        return None;
      }
      return Some(d.(display := Ascii("external")));
    case Unresolved =>
      if d.target != [] || d.display !in {Ascii("unresolved"), Ascii("[unresolved]")} || d.cycle {
        return None;
      }
      return Some(d.(display := Ascii("unresolved")));
    case OtherStatus =>
      return None;
    case _ =>
      ok := ParseRelativePath(d.display, limits);
      if !ok {
        return None;
      }
      ok := ParseRelativePath(d.target, limits);
      if !ok || (d.status == Cycle) != d.cycle {
        return None;
      }
      return Some(d);
  }

  /** The checks of a manifest, record by record. */
  method Validate(m: Manifest, limits: Limits) returns (ok: bool)
    ensures ok <==> Valid(m, limits)
  {
    hide ValidEntry, Canonical, DependencyRecord, Recordable;
    if m.schemaVersion != SCHEMA_VERSION || m.policyVersion != POLICY_VERSION {
      return false;
    }
    if limits.maxEntries <= 0 || |m.entries| > limits.maxEntries || m.entryCount != |m.entries|
      || limits.maxIncludeEdges <= 0 || |m.dependencies| > limits.maxIncludeEdges {
      return false;
    }
    var managedBytes: int;
    ok, managedBytes := ValidateEntries(m.entries, limits);
    if !ok || managedBytes > limits.maxManagedBytes || m.managedBytes != managedBytes {
      return false;
    }
    ok := ValidateDependencies(m.dependencies, limits);
  }

  predicate AllValid(entries: seq<Entry>, limits: Limits) {
    forall i | 0 <= i < |entries| :: ValidEntry(entries[i], limits)
  }

  method ValidateEntries(entries: seq<Entry>, limits: Limits) returns (ok: bool, managedBytes: Int64)
    ensures ok <==> AllValid(entries, limits) && DistinctPaths(entries) && Managed(entries) <= MAX_INT64
    ensures ok ==> managedBytes == Managed(entries)
  {
    hide ValidEntry, Managed;
    managedBytes := 0;
    ManagedOfNone();
    var paths: set<Bytes> := {};
    for i := 0 to |entries|
      invariant 0 <= managedBytes == Managed(entries[..i]) && DistinctPaths(entries[..i])
      invariant forall k | 0 <= k < i :: ValidEntry(entries[k], limits) && entries[k].path in paths
      invariant forall path | path in paths :: exists k | 0 <= k < i :: entries[k].path == path
    {
      var entry := entries[i];
      var valid := ValidateEntry(entry, limits);
      if !valid || entry.path in paths {
        return false, managedBytes;
      }
      ValidEntryTarget(entry, limits);
      paths := paths + {entry.path};
      ManagedSnoc(entries, i);
      if entry.class_ == ManagedText {
        if entry.size > MAX_INT64 - managedBytes {
          ManagedGrows(entries, i + 1, limits);
          return false, managedBytes;
        }
        managedBytes := managedBytes + entry.size;
      }
    }
    assert entries[..|entries|] == entries;
    return true, managedBytes;
  }

  lemma ManagedOfNone()
    ensures Managed([]) == 0
  {
  }

  lemma ManagedSnoc(entries: seq<Entry>, i: nat)
    requires i < |entries|
    ensures Managed(entries[..i + 1]) == Managed(entries[..i]) + if entries[i].class_ == ManagedText then
        entries[i].size else 0
  {
    assert entries[..i + 1][..i] == entries[..i];
  }

  lemma {:induction false} ManagedGrows(entries: seq<Entry>, i: nat, limits: Limits)
    requires i <= |entries|
    ensures AllValid(entries, limits) ==> Managed(entries[..i]) <= Managed(entries)
  {
    if AllValid(entries, limits) {
      forall k | 0 <= k < |entries| ensures entries[k].size >= 0 { ValidEntryTarget(entries[k], limits); }
      assert entries == entries[..i] + entries[i..];
      ManagedConcat(entries[..i], entries[i..]);
      ManagedIsNat(entries[i..]);
    }
  }

  method ValidateDependencies(ds: seq<Dependency>, limits: Limits) returns (ok: bool)
    ensures ok <==> AllCanonical(ds, limits) && DistinctForms(ds, limits)
  {
    hide Canonical, Recordable, DependencyRecord;
    var edges: set<Bytes> := {};
    for i := 0 to |ds|
      invariant AllCanonical(ds[..i], limits) && DistinctForms(ds[..i], limits)
      invariant forall k | 0 <= k < i :: FormRecord(ds[k], limits) in edges
      invariant forall record | record in edges :: exists k | 0 <= k < i :: FormRecord(ds[k], limits) == record
    {
      var canonical := CanonicalDependency(ds[i], limits);
      if canonical.None? || !Recordable(canonical.value) {
        return false;
      }
      var key := FormRecord(ds[i], limits);
      forall k | 0 <= k < i ensures FormRecord(ds[k], limits) == key
          <==> Canonical(ds[k], limits) == Canonical(ds[i], limits) {
        assert ds[..i][k] == ds[k];
        SameForm(ds[k], ds[i], limits);
      }
      if key in edges {
        return false;
      }
      edges := edges + {key};
    }
    assert ds[..|ds|] == ds;
    return true;
  }

  function FormRecord(d: Dependency, limits: Limits): Bytes {
    match Canonical(d, limits)
    case Some(form) => if form.line >= 0 && form.column >= 0 then DependencyRecord(form) else []
    case None => []
  }

  lemma SameForm(x: Dependency, y: Dependency, limits: Limits)
    requires HasCanonical(x, limits) && HasCanonical(y, limits)
    ensures FormRecord(x, limits) == FormRecord(y, limits) <==> Canonical(x, limits) == Canonical(y, limits)
  {
    hide Canonical, DependencyRecord;
    RecordIsInjective(x, y, limits);
  }

  /** What the normal form is, and what its bytes are. */
  lemma NormalOnText(m: Manifest)
    requires Valid(m, DEFAULT)
    ensures SameRecords(Normal(m), m) && RecordsAscend(Normal(m))
    ensures Printable(Normal(m)) && Written(Encode(Normal(m)), Normal(m))
  {
    hide ValidEntry, Canonical, Written, RecordsAscend, Printable, DistinctPaths, DistinctForms, Managed,
      Sorting.Sorted, Sorting.Increasing, Sorting.Comparable;
    NormalIsValid(m);
    NormalAscends(m);
    EncodeIsWritten(Normal(m));
    SortedEntries(m);
    SortedDependencies(m);
    CanonicalIsDisplayed(m.dependencies, DEFAULT);
  }

  method MarshalBinary(m: Manifest) returns (r: Option<Bytes>, ghost written: Manifest)
    ensures r == Marshal(m)
    ensures r.Some? <==> Valid(m, DEFAULT)
    ensures r.Some? ==> SameRecords(written, m) && RecordsAscend(written)
    ensures r.Some? ==> Printable(written) && Written(r.value, written)
  {
    hide Valid, Normal, EntryRecord, DependencyRecord, Header, LengthPrefixed, InOrder, Canonical, Written, SameRecords,
      RecordsAscend;
    var valid := Validate(m, DEFAULT);
    if !valid {
      return None, m;
    }
    var n := Normal(m);
    NormalIsValid(m);
    NormalOnText(m);
    var payload := Header(n);
    for i := 0 to |n.entries|
      invariant payload == Header(n) + Records(EntryRecords(n.entries)[..i])
    {
      RecordsSnoc(EntryRecords(n.entries), i);
      payload := payload + LengthPrefixed(EntryRecord(n.entries[i]));
    }
    var es := EntryRecords(n.entries);
    assert es[..|n.entries|] == es;
    for i := 0 to |n.dependencies|
      invariant payload == Header(n) + (Records(es) + Records(DependencyRecords(n.dependencies)[..i]))
    {
      RecordsSnoc(DependencyRecords(n.dependencies), i);
      payload := payload + LengthPrefixed(DependencyRecord(n.dependencies[i]));
    }
    var ds := DependencyRecords(n.dependencies);
    assert ds[..|n.dependencies|] == ds;
    return Some(payload), n;
  }

  lemma {:induction false} RecordsSnoc(records: seq<Bytes>, i: nat)
    requires i < |records|
    ensures Records(records[..i + 1]) == Records(records[..i]) + LengthPrefixed(records[i])
    decreases i
  {
    hide LengthPrefixed;
    if i > 0 {
      var rest := records[1..];
      RecordsSnoc(rest, i - 1);
      assert records[..i + 1][1..] == rest[..i] && records[..i][1..] == rest[..i - 1] && rest[i - 1] == records[i];
    } else {
      assert records[..1][1..] == [];
    }
  }

  lemma ParsedOnText(payload: Bytes, m: Manifest, limits: Limits)
    requires Parse(payload, limits) == Some(m)
    ensures Valid(m, limits) && RecordsAscend(m) && HeadFields(payload, m)
  {
    ParsedParts(payload, m, limits);
    ParsedAscends(payload, m, limits);
    ParsedHead(payload, m, limits);
  }

  lemma ParsedHead(payload: Bytes, m: Manifest, limits: Limits)
    requires Parse(payload, limits) == Some(m)
    ensures HeadFields(payload, m)
  {
    hide Valid, InOrder, ReadEntries, ReadDependencies, MaximumPayload, Value, BigEndian;
    ReadCounts(payload, limits);
    var head := ReadHead(payload, limits).value;
    var entries := ReadEntries(head.rest, head.value.entryCount, limits).value;
    ReadLengths(head.rest, head.value.entryCount, entries.rest, head.value.dependencyCount, limits);
  }

  lemma ReadCounts(payload: Bytes, limits: Limits)
    requires ReadHead(payload, limits).Some?
    ensures var head := ReadHead(payload, limits).value.value;
      && |payload| >= 24 && payload[..8] == [0x4E, 0x55, 0x58, 0x4D, 0, 1, 0, 1]
      && NumberAt(payload, 8, 4, head.entryCount) && NumberAt(payload, 12, 8, head.managedBytes)
      && NumberAt(payload, 20, 4, head.dependencyCount) && head.managedBytes <= MAX_INT64
  {
    hide Value, BigEndian;
    var p4, p6, p8, p12, p20 := payload[4..], payload[6..], payload[8..], payload[12..], payload[20..];
    assert MAGIC == [0x4E, 0x55, 0x58, 0x4D] && payload[..4] == MAGIC;
    assert p4[2..] == p6 && p6[2..] == p8 && p8[4..] == p12 && p12[8..] == p20;
    assert p8[..4] == payload[8..12] && p12[..8] == payload[12..20] && p20[..4] == payload[20..24];
    VersionBytes();
    BigEndianOfValue(p4[..2]);
    BigEndianOfValue(p6[..2]);
    assert payload[..8] == payload[..4] + p4[..2] + p6[..2];
  }

  lemma {:induction false} ReadLengths(s: Bytes, n: nat, t: Bytes, k: nat, limits: Limits)
    ensures ReadEntries(s, n, limits).Some? ==> |ReadEntries(s, n, limits).value.value| == n
    ensures ReadDependencies(t, k, limits).Some? ==> |ReadDependencies(t, k, limits).value.value| == k
    decreases n + k
  {
    hide ReadRecord, ParseEntryRecord, ParseDependencyRecord;
    if n > 0 && ReadRecord(s).Some? { ReadLengths(ReadRecord(s).value.rest, n - 1, t, 0, limits); }
    if k > 0 && ReadRecord(t).Some? { ReadLengths(s, 0, ReadRecord(t).value.rest, k - 1, limits); }
  }

  /** What reading n records gives when some are read already. */
  function Prepend<T>(done: seq<T>, r: Option<Read<seq<T>>>): Option<Read<seq<T>>> {
    match r
    case None => None
    case Some(rest) => Some(Read(done + rest.value, rest.rest))
  }

  method ParseManifest(payload: Bytes, limits: Limits) returns (r: Option<Manifest>)
    ensures r == Parse(payload, limits)
    ensures r.Some? ==> Valid(r.value, limits) && RecordsAscend(r.value) && HeadFields(payload, r.value)
  {
    hide MaximumPayload, ReadHead, Valid, InOrder, ReadRecord, ParseEntryRecord, ParseDependencyRecord;
    if |payload| > MaximumPayload(limits) {
      return None;
    }
    var head := ReadHead(payload, limits);
    if head.None? {
      return None;
    }
    var count, rest := head.value.value.entryCount, head.value.rest;
    var entries: seq<Entry> := [];
    PrependNothing(ReadEntries(rest, count, limits));
    for i := 0 to count
      invariant ReadEntries(head.value.rest, count, limits) == Prepend(entries, ReadEntries(rest, count - i, limits))
    {
      var record := ReadRecord(rest);
      if record.None? {
        return None;
      }
      var entry := ParseEntryRecord(record.value.value, limits);
      if entry.None? {
        return None;
      }
      PrependOne(entries, entry.value, ReadEntries(record.value.rest, count - i - 1, limits));
      entries, rest := entries + [entry.value], record.value.rest;
    }
    var readEntries := Read(entries, rest);
    assert ReadEntries(head.value.rest, count, limits) == Some(readEntries) by { assert entries + [] == entries; }
    var dependencies: seq<Dependency> := [];
    var dependencyCount := head.value.value.dependencyCount;
    PrependNothing(ReadDependencies(rest, dependencyCount, limits));
    for i := 0 to dependencyCount
      invariant ReadDependencies(readEntries.rest, dependencyCount, limits)
             == Prepend(dependencies, ReadDependencies(rest, dependencyCount - i, limits))
    {
      var record := ReadRecord(rest);
      if record.None? {
        return None;
      }
      var dependency := ParseDependencyRecord(record.value.value, limits);
      if dependency.None? {
        return None;
      }
      PrependOne(dependencies, dependency.value, ReadDependencies(record.value.rest, dependencyCount - i - 1, limits));
      dependencies, rest := dependencies + [dependency.value], record.value.rest;
    }
    assert ReadDependencies(readEntries.rest, dependencyCount, limits) == Some(Read(dependencies, rest)) by {
      assert dependencies + [] == dependencies;
    }
    var total := head.value.value.managedBytes;
    var m := Manifest(SCHEMA_VERSION, POLICY_VERSION, entries, dependencies, count,
                      if total <= MAX_INT64 then total else 0);
    var valid := Validate(m, limits);
    if rest != [] || !valid || !InOrder(m) {
      return None;
    }
    r := Some(m);
    ParsedOnText(payload, m, limits);
  }

  lemma PrependNothing<T>(r: Option<Read<seq<T>>>)
    ensures Prepend([], r) == r
  {
    if r.Some? { assert [] + r.value.value == r.value.value; }
  }

  lemma PrependOne<T>(done: seq<T>, x: T, r: Option<Read<seq<T>>>)
    ensures Prepend(done, match r case None => None case Some(rest) => Some(Read([x] + rest.value, rest.rest)))
        == Prepend(done + [x], r)
  {
    if r.Some? { assert done + ([x] + r.value.value) == done + [x] + r.value.value; }
  }
}
