/**
 * The pure parts of the scribe (piwheels/master/the_scribe.py): package name
 * canonicalisation (PEP 503), splitting the package list into pages, the
 * per-project JSON data folded from the database's version rows, and the
 * file and version counts written beside it.
 */
module Scribe {
  import opened Wrappers
  import opened Dicts

  // ---------------------------------------------------------------------
  // canonicalize_name

  /** The characters of the pattern `[-_.]+`. */
  predicate IsSeparator(c: char)
  {
    c == '-' || c == '_' || c == '.'
  }

  /** The rest of `s` after its leading separators. */
  function DropSeparators(s: string): (r: string)
    ensures |r| <= |s| && (r == [] || !IsSeparator(r[0]))
    ensures r == s[|s| - |r|..] && forall i :: 0 <= i < |s| - |r| ==> IsSeparator(s[i])
  {
    if s != [] && IsSeparator(s[0]) then DropSeparators(s[1..]) else s
  }

  /** `re.sub("[-_.]+", "-", s)`: each maximal run of separators becomes one `-`. */
  function CollapseSeparators(s: string): (r: string)
    ensures '_' !in r && '.' !in r
    ensures forall i :: 0 <= i < |r| - 1 ==> !(r[i] == '-' && r[i + 1] == '-')
    ensures s == [] <==> r == []
    ensures r != [] && r[0] == '-' ==> IsSeparator(s[0])
    decreases |s|
  {
    if s == [] then []
    else if IsSeparator(s[0]) then
      var rest := CollapseSeparators(DropSeparators(s[1..]));
      assert rest != [] ==> rest[0] != '-';
      "-" + rest
    else [s[0]] + CollapseSeparators(s[1..])
  }

  /** ASCII upper-case letters. */
  predicate IsUpper(c: char)
  {
    'A' <= c <= 'Z'
  }

  /** `str.lower` on one character, for ASCII letters. */
  function LowerChar(c: char): (d: char)
    ensures !IsUpper(d)
    ensures IsSeparator(c) <==> IsSeparator(d)
    ensures c == '-' <==> d == '-'
  {
    if IsUpper(c) then (c as int + 32) as char else c
  }

  /** `str.lower`, letter by letter. */
  function Lower(s: string): (r: string)
    ensures |r| == |s| && forall i :: 0 <= i < |s| ==> r[i] == LowerChar(s[i])
  {
    if s == [] then [] else [LowerChar(s[0])] + Lower(s[1..])
  }

  /** A name in PEP 503 normal form: lower case, `-` alone between words. */
  predicate Canonical(s: string)
  {
    && (forall i :: 0 <= i < |s| ==> s[i] != '_' && s[i] != '.' && !IsUpper(s[i]))
    && (forall i :: 0 <= i < |s| - 1 ==> !(s[i] == '-' && s[i + 1] == '-'))
  }

  /** `canonicalize_name`: separators collapsed to one `-`, then lower-cased. */
  function CanonicalizeName(name: string): (r: string)
    ensures Canonical(r)
    ensures |r| <= |name| && (r == [] <==> name == [])
  {
    var c := CollapseSeparators(name);
    CollapseShorter(name);
    var r := Lower(c);
    assert forall i :: 0 <= i < |r| ==> r[i] != '_' && r[i] != '.' by {
      forall i | 0 <= i < |r| ensures r[i] != '_' && r[i] != '.' {
        assert c[i] in c;
      }
    }
    r
  }

  lemma {:induction false} CollapseShorter(s: string)
    ensures |CollapseSeparators(s)| <= |s|
    decreases |s|
  {
    if s != [] {
      if IsSeparator(s[0]) {
        CollapseShorter(DropSeparators(s[1..]));
      } else {
        CollapseShorter(s[1..]);
      }
    }
  }

  /** A name already in normal form is left alone. */
  lemma {:induction false} CanonicalFixpoint(s: string)
    requires Canonical(s)
    ensures CanonicalizeName(s) == s
  {
    CollapseFixpoint(s);
    LowerFixpoint(s);
  }

  lemma {:induction false} CollapseFixpoint(s: string)
    requires Canonical(s)
    ensures CollapseSeparators(s) == s
    decreases |s|
  {
    if s != [] {
      assert Canonical(s[1..]) by {
        assert forall i :: 0 <= i < |s[1..]| ==> s[1..][i] == s[i + 1];
      }
      CollapseFixpoint(s[1..]);
      if IsSeparator(s[0]) {
        assert s[1..] == [] || s[1] != '-';
        assert DropSeparators(s[1..]) == s[1..];
      }
      assert s == [s[0]] + s[1..];
    }
  }

  lemma LowerFixpoint(s: string)
    requires forall i :: 0 <= i < |s| ==> !IsUpper(s[i])
    ensures Lower(s) == s
  {
  }

  /** Canonicalising twice is canonicalising once. */
  lemma CanonicalizeIdempotent(name: string)
    ensures CanonicalizeName(CanonicalizeName(name)) == CanonicalizeName(name)
  {
    CanonicalFixpoint(CanonicalizeName(name));
  }

  /** The characters of `s` that are not separators. */
  function Letters(s: string): (r: string)
    ensures forall i :: 0 <= i < |r| ==> !IsSeparator(r[i])
  {
    if s == [] then []
    else if IsSeparator(s[0]) then Letters(s[1..])
    else [s[0]] + Letters(s[1..])
  }

  /**
   * Canonicalisation changes nothing but separators and case: with the
   * separators taken out, the name lower-cased and its canonical form agree.
   */
  lemma {:induction false} CanonicalKeepsLetters(name: string)
    ensures Letters(CanonicalizeName(name)) == Lower(Letters(name))
  {
    CollapseKeepsLetters(name);
    LettersLower(CollapseSeparators(name));
  }

  lemma {:induction false} CollapseKeepsLetters(s: string)
    ensures Letters(CollapseSeparators(s)) == Letters(s)
    decreases |s|
  {
    if s != [] {
      if IsSeparator(s[0]) {
        DropKeepsLetters(s[1..]);
        CollapseKeepsLetters(DropSeparators(s[1..]));
        assert ("-" + CollapseSeparators(DropSeparators(s[1..])))[1..] == CollapseSeparators(DropSeparators(s[1..]));
      } else {
        CollapseKeepsLetters(s[1..]);
        assert ([s[0]] + CollapseSeparators(s[1..]))[1..] == CollapseSeparators(s[1..]);
      }
    }
  }

  lemma {:induction false} DropKeepsLetters(s: string)
    ensures Letters(DropSeparators(s)) == Letters(s)
  {
    if s != [] && IsSeparator(s[0]) {
      DropKeepsLetters(s[1..]);
    }
  }

  lemma {:induction false} LettersLower(s: string)
    ensures Letters(Lower(s)) == Lower(Letters(s))
  {
    if s != [] {
      LettersLower(s[1..]);
      assert Lower(s)[1..] == Lower(s[1..]);
      if !IsSeparator(s[0]) {
        assert Lower([s[0]] + Letters(s[1..])) == [LowerChar(s[0])] + Lower(Letters(s[1..]));
      }
    }
  }

  // ---------------------------------------------------------------------
  // grouper

  /** `n` copies of `fill`. */
  function Padding<T>(n: nat, fill: T): (p: seq<T>)
    ensures |p| == n && forall i :: 0 <= i < n ==> p[i] == fill
  {
    seq(n, _ => fill)
  }

  /** The groups laid end to end. */
  function Flatten<T>(groups: seq<seq<T>>): seq<T>
  {
    if groups == [] then [] else groups[0] + Flatten(groups[1..])
  }

  /**
   * `grouper(iterable, n, fillvalue)`: consecutive groups of exactly `n`
   * items, the last one padded with `fillvalue`; nothing at all when there
   * are no items or `n` is not positive (`zip_longest` of no iterators).
   */
  function Grouper<T>(xs: seq<T>, n: int, fill: T): (groups: seq<seq<T>>)
    ensures n <= 0 || xs == [] <==> groups == []
    ensures forall i :: 0 <= i < |groups| ==> |groups[i]| == n
    ensures n > 0 && xs != [] ==> (|groups| - 1) * n < |xs| <= |groups| * n
    decreases |xs|
  {
    if n <= 0 || xs == [] then []
    else if |xs| > n then [xs[..n]] + Grouper(xs[n..], n, fill)
    else [xs + Padding(n - |xs|, fill)]
  }

  /** The groups hold the items in order, followed by fewer than `n` fill values. */
  lemma {:induction false} GrouperFlatten<T>(xs: seq<T>, n: int, fill: T)
    requires n > 0
    ensures var pad := |Grouper(xs, n, fill)| * n - |xs|;
      0 <= pad < n && Flatten(Grouper(xs, n, fill)) == xs + Padding(pad, fill)
    decreases |xs|
  {
    var groups := Grouper(xs, n, fill);
    if xs == [] {
    } else if |xs| > n {
      var rest := Grouper(xs[n..], n, fill);
      GrouperFlatten(xs[n..], n, fill);
      GrouperFirst(xs, n, fill);
      var pad := |rest| * n - |xs[n..]|;
      assert |groups| * n - |xs| == pad by {
        assert |groups| * n == (|rest| + 1) * n == |rest| * n + n;
      }
      calc {
        Flatten(groups);
        xs[..n] + Flatten(rest);
        xs[..n] + (xs[n..] + Padding(pad, fill));
        (xs[..n] + xs[n..]) + Padding(pad, fill);
        { assert xs[..n] + xs[n..] == xs; }
        xs + Padding(pad, fill);
      }
    } else {
      assert groups[1..] == [];
      assert Flatten(groups) == groups[0] + [];
    }
  }

  /** With more than `n` items, the first group is the first `n` items and the rest group the others. */
  lemma GrouperFirst<T>(xs: seq<T>, n: int, fill: T)
    requires n > 0 && |xs| > n
    ensures var groups := Grouper(xs, n, fill);
      |groups| == |Grouper(xs[n..], n, fill)| + 1
      && Flatten(groups) == xs[..n] + Flatten(Grouper(xs[n..], n, fill))
  {
    var groups := Grouper(xs, n, fill);
    assert groups[0] == xs[..n] && groups[1..] == Grouper(xs[n..], n, fill);
  }

  /** There are ⌈len(xs)/n⌉ groups. */
  lemma GrouperCount<T>(xs: seq<T>, n: int, fill: T)
    requires n > 0
    ensures |Grouper(xs, n, fill)| == (|xs| + n - 1) / n
  {
    if xs != [] {
      CeilingUnique(|xs|, n, |Grouper(xs, n, fill)|);
    }
  }

  /** The one `g` with `(g - 1) * n < m <= g * n` is `m` divided by `n`, rounded up. */
  lemma CeilingUnique(m: int, n: int, g: int)
    requires n > 0 && (g - 1) * n < m <= g * n
    ensures g == (m + n - 1) / n
  {
    var q, r := (m + n - 1) / n, (m + n - 1) % n;
    assert m + n - 1 == q * n + r && 0 <= r < n;
    assert g * n == (g - 1) * n + n;
    ProductBelow(g, q + 1, n);
    assert (g + 1) * n == g * n + n;
    ProductBelow(q, g + 1, n);
  }

  lemma ProductBelow(a: int, b: int, n: int)
    requires n > 0 && a * n < b * n
    ensures a < b
  {
    assert (a - b) * n == a * n - b * n;
  }

  /** The example of the itertools recipe: `grouper('ABCDEFG', 3, 'x')` gives `ABC DEF Gxx`. */
  lemma GrouperExample()
    ensures Grouper("ABCDEFG", 3, 'x') == ["ABC", "DEF", "Gxx"]
  {
    var xs := "ABCDEFG";
    assert xs[..3] == "ABC" && xs[3..] == "DEFG";
    assert "DEFG"[..3] == "DEF" && "DEFG"[3..] == "G";
    assert Grouper("G", 3, 'x') == ["G" + Padding(2, 'x')];
    assert "G" + Padding(2, 'x') == "Gxx";
  }

  // ---------------------------------------------------------------------
  // get_project_versions_and_files

  /**
   * One row of the database's project versions: the release's version,
   * release date (already formatted), build id (absent for a version never
   * built), skip reason, build duration, whether the build succeeded, and
   * the file the build produced with its tags and apt dependencies.
   */
  datatype Row = Row(
    version: string,
    released: string,
    buildId: Option<nat>,
    skip: string,
    duration: string,
    status: bool,
    filename: string,
    filesize: nat,
    filehash: string,
    builderAbi: string,
    fileAbiTag: string,
    platformTag: string,
    aptDependencies: seq<string>)

  /** Python's truth value of the build id. */
  predicate HasBuild(r: Row)
  {
    r.buildId.Some? && r.buildId.value != 0
  }

  /** A file built successfully for one platform. */
  datatype SuccessfulBuild = SuccessfulBuild(
    buildId: Option<nat>,
    builderAbi: string,
    filename: string,
    filesize: nat,
    filehash: string,
    duration: string,
    aptDependencies: seq<string>,
    url: string)

  /** The latest failed build for one ABI. */
  datatype FailedBuild = FailedBuild(buildId: nat, duration: string)

  /** The builds under one ABI: files by platform, and the failed build (`{}` when `None`). */
  datatype AbiBuilds = AbiBuilds(successful: Dict<string, SuccessfulBuild>, failed: Option<FailedBuild>)

  /** The JSON entry of one version. */
  datatype VersionEntry = VersionEntry(released: string, skip: string, builds: Dict<string, AbiBuilds>)

  type Versions = Dict<string, VersionEntry>

  /** Where a package's file is published in the simple index. */
  function FileUrl(package: string, filename: string): string
  {
    "https://www.piwheels.org/simple/" + package + "/" + filename
  }

  /** The entry a successful row records under its platform. */
  function SuccessOf(package: string, r: Row): (b: SuccessfulBuild)
    ensures b.filename == r.filename && b.url == FileUrl(package, r.filename)
  {
    SuccessfulBuild(r.buildId, r.builderAbi, r.filename, r.filesize, r.filehash, r.duration,
                    r.aptDependencies, FileUrl(package, r.filename))
  }

  /** The entry a failed row records under its builder's ABI. */
  function FailureOf(r: Row): FailedBuild
    requires HasBuild(r)
  {
    FailedBuild(r.buildId.value, r.duration)
  }

  const NoBuilds := AbiBuilds([], None)

  /** The versions after folding in the rows in order. */
  function FoldRows(package: string, rows: seq<Row>): Versions
  {
    if rows == [] then []
    else AddRow(package, FoldRows(package, rows[..|rows| - 1]), rows[|rows| - 1])
  }

  /** The entry a row starts from: the version's listed entry, or a new one dated by the row. */
  function EntryFor(versions: Versions, r: Row): VersionEntry
  {
    GetOr(versions, r.version, VersionEntry(r.released, r.skip, []))
  }

  /** The ABI a row adds to: its file's when it succeeded, its builder's when it failed. */
  function AbiKey(r: Row): string
  {
    if r.status then r.fileAbiTag else r.builderAbi
  }

  /**
   * What a row does to the builds of its ABI: a successful row files its
   * build under its platform, a failed row with a build replaces the failed
   * build.
   */
  function UpdateAbi(package: string, abi: AbiBuilds, r: Row): AbiBuilds
    requires r.status || HasBuild(r)
  {
    if r.status then abi.(successful := Put(abi.successful, r.platformTag, SuccessOf(package, r)))
    else abi.(failed := Some(FailureOf(r)))
  }

  /** What a row does to its version's entry: the release date and skip reason stay as they were. */
  function UpdateEntry(package: string, entry: VersionEntry, r: Row): (e: VersionEntry)
    ensures e.released == entry.released && e.skip == entry.skip
  {
    if r.status || HasBuild(r) then
      var key := AbiKey(r);
      entry.(builds := Put(entry.builds, key, UpdateAbi(package, GetOr(entry.builds, key, NoBuilds), r)))
    else entry
  }

  /**
   * One turn of the loop: the version's entry is created from its first
   * row; a successful row files its build under its file's ABI and
   * platform; a failed row with a build replaces the failed build under the
   * builder's ABI.
   */
  function AddRow(package: string, versions: Versions, r: Row): (after: Versions)
    ensures Get(after, r.version).Some?
    ensures forall v :: v != r.version ==> Get(after, v) == Get(versions, v)
  {
    Put(versions, r.version, UpdateEntry(package, EntryFor(versions, r), r))
  }

  /** `get_project_versions_and_files`, on the rows the database returned. */
  method ProjectVersionsAndFiles(package: string, rows: seq<Row>) returns (versions: Versions)
    ensures versions == FoldRows(package, rows)
    ensures Distinct(Keys(versions))
  {
    versions := [];
    for i := 0 to |rows|
      invariant versions == FoldRows(package, rows[..i])
    {
      var r := rows[i];
      var entry: VersionEntry;
      match Get(versions, r.version) {
        case None => entry := VersionEntry(r.released, r.skip, []);
        case Some(e) => entry := e;
      }
      assert entry == EntryFor(versions, r);
      if r.status {
        var abi := GetOr(entry.builds, r.fileAbiTag, NoBuilds);
        abi := abi.(successful := Put(abi.successful, r.platformTag, SuccessOf(package, r)));
        entry := entry.(builds := Put(entry.builds, r.fileAbiTag, abi));
      } else if HasBuild(r) {
        var abi := GetOr(entry.builds, r.builderAbi, NoBuilds);
        abi := abi.(failed := Some(FailureOf(r)));
        entry := entry.(builds := Put(entry.builds, r.builderAbi, abi));
      }
      versions := Put(versions, r.version, entry);
      assert rows[..i + 1][..i] == rows[..i];
    }
    assert rows[..|rows|] == rows;
    FoldKeys(package, rows);
  }

  /** The versions of the rows, each once, in order of first appearance. */
  function FirstAppearances(rows: seq<Row>): seq<string>
  {
    if rows == [] then []
    else
      var earlier := FirstAppearances(rows[..|rows| - 1]);
      var v := rows[|rows| - 1].version;
      if v in earlier then earlier else earlier + [v]
  }

  /** The JSON lists each version of the rows once, in the order the rows first name it. */
  lemma {:induction false} FoldKeys(package: string, rows: seq<Row>)
    ensures Keys(FoldRows(package, rows)) == FirstAppearances(rows)
    ensures Distinct(Keys(FoldRows(package, rows)))
  {
    if rows != [] {
      var prefix := rows[..|rows| - 1];
      var r := rows[|rows| - 1];
      var before := FoldRows(package, prefix);
      FoldKeys(package, prefix);
      PutKeys(before, r.version, UpdateEntry(package, EntryFor(before, r), r));
      PutDistinct(before, r.version, UpdateEntry(package, EntryFor(before, r), r));
    }
  }

  /** A version is listed exactly when some row names it. */
  lemma {:induction false} AppearancesMembers(rows: seq<Row>, v: string)
    ensures v in FirstAppearances(rows) <==> exists j :: 0 <= j < |rows| && rows[j].version == v
  {
    if rows != [] {
      var prefix := rows[..|rows| - 1];
      AppearancesMembers(prefix, v);
      if exists j :: 0 <= j < |prefix| && prefix[j].version == v {
        var j :| 0 <= j < |prefix| && prefix[j].version == v;
        assert rows[j].version == v;
      }
      if exists j :: 0 <= j < |rows| && rows[j].version == v {
        var j :| 0 <= j < |rows| && rows[j].version == v;
        if j < |prefix| {
          assert prefix[j].version == v;
        }
      }
    }
  }

  /** What one row does to the entry of a version: created by the first row naming it, dated and marked by that row. */
  lemma AddRowEntry(package: string, versions: Versions, r: Row, v: string)
    ensures var after := Get(AddRow(package, versions, r), v);
      && (after.Some? <==> Get(versions, v).Some? || v == r.version)
      && (Get(versions, v).Some? ==>
            after.value.released == Get(versions, v).value.released &&
            after.value.skip == Get(versions, v).value.skip)
      && (Get(versions, v).None? && v == r.version ==>
            after.value.released == r.released && after.value.skip == r.skip)
  {
    var e := UpdateEntry(package, EntryFor(versions, r), r);
    assert Get(AddRow(package, versions, r), r.version) == Some(e);
  }

  /** The release date and skip reason of the first row naming version `v`, if any. */
  function FirstDates(rows: seq<Row>, v: string): Option<(string, string)>
  {
    if rows == [] then None
    else
      var r := rows[|rows| - 1];
      match FirstDates(rows[..|rows| - 1], v)
      case Some(d) => Some(d)
      case None => if r.version == v then Some((r.released, r.skip)) else None
  }

  /** The entry of a version carries the dates of the first row naming it. */
  lemma {:induction false} DatesFold(package: string, rows: seq<Row>, v: string)
    ensures var e := Get(FoldRows(package, rows), v);
      var d := FirstDates(rows, v);
      e.Some? == d.Some? && (e.Some? ==> (e.value.released, e.value.skip) == d.value)
  {
    if rows != [] {
      var n := |rows| - 1;
      DatesFold(package, rows[..n], v);
      AddRowEntry(package, FoldRows(package, rows[..n]), rows[n], v);
    }
  }

  lemma {:induction false} FirstDatesNone(rows: seq<Row>, v: string)
    requires forall j :: 0 <= j < |rows| ==> rows[j].version != v
    ensures FirstDates(rows, v) == None
  {
    if rows != [] {
      var prefix := rows[..|rows| - 1];
      assert forall j :: 0 <= j < |prefix| ==> prefix[j] == rows[j];
      FirstDatesNone(prefix, v);
    }
  }

  lemma {:induction false} FirstDatesAt(rows: seq<Row>, i: nat)
    requires i < |rows|
    requires forall j :: 0 <= j < i ==> rows[j].version != rows[i].version
    ensures FirstDates(rows, rows[i].version) == Some((rows[i].released, rows[i].skip))
  {
    var n := |rows| - 1;
    var prefix := rows[..n];
    assert forall j :: 0 <= j < n ==> prefix[j] == rows[j];
    if i < n {
      FirstDatesAt(prefix, i);
    } else {
      FirstDatesNone(prefix, rows[i].version);
    }
  }

  /**
   * A version's release date and skip reason are those of the first row
   * naming it; later rows of the same version do not change them.
   */
  lemma FirstRowDates(package: string, rows: seq<Row>, i: nat)
    requires i < |rows|
    requires forall j :: 0 <= j < i ==> rows[j].version != rows[i].version
    ensures var e := Get(FoldRows(package, rows), rows[i].version);
      e.Some? && e.value.released == rows[i].released && e.value.skip == rows[i].skip
  {
    DatesFold(package, rows, rows[i].version);
    FirstDatesAt(rows, i);
  }

  /** A row that neither succeeded nor has a build only adds its version's entry, when it is new. */
  lemma PlainRowAddsOnlyEntry(package: string, versions: Versions, r: Row)
    requires !r.status && !HasBuild(r)
    ensures AddRow(package, versions, r)
            == if r.version in Keys(versions) then versions
               else versions + [(r.version, VersionEntry(r.released, r.skip, []))]
  {
    if r.version in Keys(versions) {
      PutSame(versions, r.version, Get(versions, r.version).value);
    } else {
      PutNew(versions, r.version, VersionEntry(r.released, r.skip, []));
    }
  }

  /** Row `r` is a successful build of version `v` for ABI `a` and platform `p`. */
  predicate IsSuccessFor(r: Row, v: string, a: string, p: string)
  {
    r.status && r.version == v && r.fileAbiTag == a && r.platformTag == p
  }

  /** Row `r` is a failed build of version `v` by a builder of ABI `a`. */
  predicate IsFailureFor(r: Row, v: string, a: string)
  {
    !r.status && HasBuild(r) && r.version == v && r.builderAbi == a
  }

  /** Some row is a successful build of version `v` for ABI `a` and platform `p`. */
  predicate Succeeded(rows: seq<Row>, v: string, a: string, p: string)
  {
    exists i :: 0 <= i < |rows| && IsSuccessFor(rows[i], v, a, p)
  }

  /** Some row is a failed build of version `v` by a builder of ABI `a`. */
  predicate Failed(rows: seq<Row>, v: string, a: string)
  {
    exists i :: 0 <= i < |rows| && IsFailureFor(rows[i], v, a)
  }

  /** Row `i` is the last successful build of version `v` for ABI `a` and platform `p`. */
  predicate LastSuccessRow(rows: seq<Row>, i: nat, v: string, a: string, p: string)
    requires i < |rows|
  {
    IsSuccessFor(rows[i], v, a, p) && forall j :: i < j < |rows| ==> !IsSuccessFor(rows[j], v, a, p)
  }

  /** Row `i` is the last failed build of version `v` by a builder of ABI `a`. */
  predicate LastFailureRow(rows: seq<Row>, i: nat, v: string, a: string)
    requires i < |rows|
  {
    IsFailureFor(rows[i], v, a) && forall j :: i < j < |rows| ==> !IsFailureFor(rows[j], v, a)
  }

  /** The builds listed under version `v` and ABI `a`, if any. */
  function AbiAt(versions: Versions, v: string, a: string): Option<AbiBuilds>
  {
    match Get(versions, v)
    case None => None
    case Some(e) => Get(e.builds, a)
  }

  /** The file listed under version `v`, ABI `a` and platform `p`, if any. */
  function SuccessAt(versions: Versions, v: string, a: string, p: string): Option<SuccessfulBuild>
  {
    match AbiAt(versions, v, a)
    case None => None
    case Some(b) => Get(b.successful, p)
  }

  /** The failed build listed under version `v` and ABI `a`, if any. */
  function FailedAt(versions: Versions, v: string, a: string): Option<FailedBuild>
  {
    match AbiAt(versions, v, a)
    case None => None
    case Some(b) => b.failed
  }

  /** The builds of an ABI before a row adds to them: empty when none are listed. */
  function AbiOr(b: Option<AbiBuilds>): AbiBuilds
  {
    match b
    case None => NoBuilds
    case Some(x) => x
  }

  /** What one row does to the builds listed under one version and ABI. */
  lemma AbiStep(package: string, versions: Versions, r: Row, v: string, a: string)
    ensures var before := AbiOr(AbiAt(versions, v, a));
      AbiAt(AddRow(package, versions, r), v, a) ==
        if r.version == v && r.status && r.fileAbiTag == a then
          Some(before.(successful := Put(before.successful, r.platformTag, SuccessOf(package, r))))
        else if r.version == v && !r.status && HasBuild(r) && r.builderAbi == a then
          Some(before.(failed := Some(FailureOf(r))))
        else AbiAt(versions, v, a)
  {
    var after := AddRow(package, versions, r);
    var entry := EntryFor(versions, r);
    var e' := UpdateEntry(package, entry, r);
    if r.version != v {
      assert Get(after, v) == Get(versions, v);
    } else {
      assert Get(after, v) == Some(e');
      assert AbiAt(versions, v, a) == Get(entry.builds, a);
      if r.status || HasBuild(r) {
        if a == AbiKey(r) {
          assert GetOr(entry.builds, a, NoBuilds) == AbiOr(AbiAt(versions, v, a));
        } else {
          assert Get(e'.builds, a) == Get(entry.builds, a);
        }
      }
    }
  }

  lemma SuccessStep(package: string, versions: Versions, r: Row, v: string, a: string, p: string)
    ensures SuccessAt(AddRow(package, versions, r), v, a, p)
            == if IsSuccessFor(r, v, a, p) then Some(SuccessOf(package, r)) else SuccessAt(versions, v, a, p)
  {
    AbiStep(package, versions, r, v, a);
  }

  lemma FailedStep(package: string, versions: Versions, r: Row, v: string, a: string)
    ensures FailedAt(AddRow(package, versions, r), v, a)
            == if IsFailureFor(r, v, a) then Some(FailureOf(r)) else FailedAt(versions, v, a)
  {
    AbiStep(package, versions, r, v, a);
  }

  /** The build of the last successful row for a version, ABI and platform. */
  function LastSuccess(package: string, rows: seq<Row>, v: string, a: string, p: string): Option<SuccessfulBuild>
  {
    if rows == [] then None
    else if IsSuccessFor(rows[|rows| - 1], v, a, p) then Some(SuccessOf(package, rows[|rows| - 1]))
    else LastSuccess(package, rows[..|rows| - 1], v, a, p)
  }

  lemma {:induction false} SuccessFold(package: string, rows: seq<Row>, v: string, a: string, p: string)
    ensures SuccessAt(FoldRows(package, rows), v, a, p) == LastSuccess(package, rows, v, a, p)
  {
    if rows != [] {
      var n := |rows| - 1;
      SuccessFold(package, rows[..n], v, a, p);
      SuccessStep(package, FoldRows(package, rows[..n]), rows[n], v, a, p);
    }
  }

  /** There is a last successful build exactly when some row succeeded. */
  lemma {:induction false} LastSuccessExists(package: string, rows: seq<Row>, v: string, a: string, p: string)
    ensures LastSuccess(package, rows, v, a, p).Some? <==> Succeeded(rows, v, a, p)
  {
    if rows != [] {
      var n := |rows| - 1;
      var prefix := rows[..n];
      LastSuccessExists(package, prefix, v, a, p);
      if IsSuccessFor(rows[n], v, a, p) {
        assert Succeeded(rows, v, a, p);
      } else {
        if Succeeded(prefix, v, a, p) {
          var i :| 0 <= i < n && IsSuccessFor(prefix[i], v, a, p);
          assert rows[i] == prefix[i];
        }
        if Succeeded(rows, v, a, p) {
          var i :| 0 <= i < |rows| && IsSuccessFor(rows[i], v, a, p);
          assert i < n && prefix[i] == rows[i];
        }
      }
    }
  }

  /** The last successful build is that of the last row that succeeded. */
  lemma {:induction false} LastSuccessAt(package: string, rows: seq<Row>, i: nat, v: string, a: string, p: string)
    requires i < |rows| && LastSuccessRow(rows, i, v, a, p)
    ensures LastSuccess(package, rows, v, a, p) == Some(SuccessOf(package, rows[i]))
  {
    var n := |rows| - 1;
    if i < n {
      var prefix := rows[..n];
      assert !IsSuccessFor(rows[n], v, a, p);
      assert LastSuccessRow(prefix, i, v, a, p) by {
        assert prefix[i] == rows[i];
        forall j | i < j < n
          ensures !IsSuccessFor(prefix[j], v, a, p)
        {
          assert prefix[j] == rows[j];
        }
      }
      LastSuccessAt(package, prefix, i, v, a, p);
    }
  }

  /**
   * The file listed for a version, ABI and platform is the one of the last
   * successful row for them, and one is listed exactly when such a row exists.
   */
  lemma LastSuccessWins(package: string, rows: seq<Row>, v: string, a: string, p: string)
    ensures SuccessAt(FoldRows(package, rows), v, a, p).Some? <==> Succeeded(rows, v, a, p)
    ensures forall i :: 0 <= i < |rows| && LastSuccessRow(rows, i, v, a, p) ==>
              SuccessAt(FoldRows(package, rows), v, a, p) == Some(SuccessOf(package, rows[i]))
  {
    SuccessFold(package, rows, v, a, p);
    LastSuccessExists(package, rows, v, a, p);
    forall i | 0 <= i < |rows| && LastSuccessRow(rows, i, v, a, p)
      ensures LastSuccess(package, rows, v, a, p) == Some(SuccessOf(package, rows[i]))
    {
      LastSuccessAt(package, rows, i, v, a, p);
    }
  }

  /** The failed build of the last failed row with a build for a version and ABI. */
  function LastFailure(rows: seq<Row>, v: string, a: string): Option<FailedBuild>
  {
    if rows == [] then None
    else if IsFailureFor(rows[|rows| - 1], v, a) then Some(FailureOf(rows[|rows| - 1]))
    else LastFailure(rows[..|rows| - 1], v, a)
  }

  lemma {:induction false} FailureFold(package: string, rows: seq<Row>, v: string, a: string)
    ensures FailedAt(FoldRows(package, rows), v, a) == LastFailure(rows, v, a)
  {
    if rows != [] {
      var n := |rows| - 1;
      FailureFold(package, rows[..n], v, a);
      FailedStep(package, FoldRows(package, rows[..n]), rows[n], v, a);
    }
  }

  /** There is a last failed build exactly when some row failed with a build. */
  lemma {:induction false} LastFailureExists(rows: seq<Row>, v: string, a: string)
    ensures LastFailure(rows, v, a).Some? <==> Failed(rows, v, a)
  {
    if rows != [] {
      var n := |rows| - 1;
      var prefix := rows[..n];
      LastFailureExists(prefix, v, a);
      if IsFailureFor(rows[n], v, a) {
        assert Failed(rows, v, a);
      } else {
        if Failed(prefix, v, a) {
          var i :| 0 <= i < n && IsFailureFor(prefix[i], v, a);
          assert rows[i] == prefix[i];
        }
        if Failed(rows, v, a) {
          var i :| 0 <= i < |rows| && IsFailureFor(rows[i], v, a);
          assert i < n && prefix[i] == rows[i];
        }
      }
    }
  }

  /** The last failed build is that of the last row that failed with a build. */
  lemma {:induction false} LastFailureAt(rows: seq<Row>, i: nat, v: string, a: string)
    requires i < |rows| && LastFailureRow(rows, i, v, a)
    ensures LastFailure(rows, v, a) == Some(FailureOf(rows[i]))
  {
    var n := |rows| - 1;
    if i < n {
      var prefix := rows[..n];
      assert !IsFailureFor(rows[n], v, a);
      assert LastFailureRow(prefix, i, v, a) by {
        assert prefix[i] == rows[i];
        forall j | i < j < n
          ensures !IsFailureFor(prefix[j], v, a)
        {
          assert prefix[j] == rows[j];
        }
      }
      LastFailureAt(prefix, i, v, a);
    }
  }

  /**
   * The failed build listed for a version and ABI is that of the last
   * failed row with a build for them, and one is listed exactly when such a
   * row exists.
   */
  lemma LastFailureWins(package: string, rows: seq<Row>, v: string, a: string)
    ensures FailedAt(FoldRows(package, rows), v, a).Some? <==> Failed(rows, v, a)
    ensures forall i :: 0 <= i < |rows| && LastFailureRow(rows, i, v, a) ==>
              FailedAt(FoldRows(package, rows), v, a) == Some(FailureOf(rows[i]))
  {
    FailureFold(package, rows, v, a);
    LastFailureExists(rows, v, a);
    forall i | 0 <= i < |rows| && LastFailureRow(rows, i, v, a)
      ensures LastFailure(rows, v, a) == Some(FailureOf(rows[i]))
    {
      LastFailureAt(rows, i, v, a);
    }
  }

  // ---------------------------------------------------------------------
  // get_num_files_for_version, get_num_files, get_num_versions

  /** The files listed under one ABI. */
  function FilesOf(b: AbiBuilds): int
  {
    |b.successful|
  }

  /** `get_num_files_for_version`: the files listed under all ABIs of a version. */
  function NumFilesForVersion(builds: Dict<string, AbiBuilds>): (n: nat)
    ensures n == 0 <==> forall i :: 0 <= i < |builds| ==> builds[i].1.successful == []
  {
    SumByZero(builds, FilesOf);
    SumBy(builds, FilesOf)
  }

  function FilesOfVersion(e: VersionEntry): int
  {
    NumFilesForVersion(e.builds)
  }

  /** `get_num_files`: the files listed under all versions. */
  function NumFiles(versions: Versions): (n: nat)
    ensures n == 0 <==> forall i :: 0 <= i < |versions| ==> !HasFiles(versions[i].1)
  {
    SumByZero(versions, FilesOfVersion);
    SumBy(versions, FilesOfVersion)
  }

  predicate HasFiles(e: VersionEntry)
  {
    FilesOfVersion(e) > 0
  }

  /** `get_num_versions`: the versions with at least one file. */
  function NumVersions(versions: Versions): (n: nat)
    ensures n == |versions| <==> forall i :: 0 <= i < |versions| ==> HasFiles(versions[i].1)
  {
    CountByAll(versions, HasFiles);
    CountBy(versions, HasFiles)
  }

  /** No more versions have files than there are versions, or than there are files. */
  lemma VersionCounts(versions: Versions)
    ensures NumVersions(versions) <= |versions|
    ensures NumVersions(versions) <= NumFiles(versions)
  {
    CountBelowSum(versions, HasFiles, FilesOfVersion);
  }

  /** Every dictionary in the JSON data, at every level, has each key once. */
  predicate WellKeyedAbi(b: AbiBuilds)
  {
    Distinct(Keys(b.successful))
  }

  predicate WellKeyedEntry(e: VersionEntry)
  {
    Distinct(Keys(e.builds)) && forall i :: 0 <= i < |e.builds| ==> WellKeyedAbi(e.builds[i].1)
  }

  predicate WellKeyed(versions: Versions)
  {
    Distinct(Keys(versions)) && forall i :: 0 <= i < |versions| ==> WellKeyedEntry(versions[i].1)
  }

  /** The entry a row starts from is well keyed when the versions are. */
  lemma EntryWellKeyed(versions: Versions, r: Row)
    requires WellKeyed(versions)
    ensures WellKeyedEntry(EntryFor(versions, r))
  {
    if Get(versions, r.version).Some? {
      GetHolds(versions, r.version, WellKeyedEntry);
    }
  }

  lemma WellKeyedStep(package: string, versions: Versions, r: Row)
    requires WellKeyed(versions)
    ensures WellKeyed(AddRow(package, versions, r))
  {
    var entry := EntryFor(versions, r);
    EntryWellKeyed(versions, r);
    var entry' := UpdateEntry(package, entry, r);
    if r.status || HasBuild(r) {
      var key := AbiKey(r);
      var abi := GetOr(entry.builds, key, NoBuilds);
      if Get(entry.builds, key).Some? {
        GetHolds(entry.builds, key, WellKeyedAbi);
      }
      assert WellKeyedAbi(abi);
      var abi' := UpdateAbi(package, abi, r);
      if r.status {
        PutDistinct(abi.successful, r.platformTag, SuccessOf(package, r));
      }
      assert WellKeyedAbi(abi');
      PutValues(entry.builds, key, abi', WellKeyedAbi);
      PutDistinct(entry.builds, key, abi');
      assert entry' == entry.(builds := Put(entry.builds, key, abi'));
    }
    assert WellKeyedEntry(entry');
    PutValues(versions, r.version, entry', WellKeyedEntry);
    PutDistinct(versions, r.version, entry');
  }

  lemma {:induction false} FoldWellKeyed(package: string, rows: seq<Row>)
    ensures WellKeyed(FoldRows(package, rows))
  {
    if rows != [] {
      FoldWellKeyed(package, rows[..|rows| - 1]);
      WellKeyedStep(package, FoldRows(package, rows[..|rows| - 1]), rows[|rows| - 1]);
    }
  }

  /** One row adds a file exactly when it is a success for a platform not yet listed. */
  lemma FilesStep(package: string, versions: Versions, r: Row)
    requires WellKeyed(versions)
    ensures NumFiles(AddRow(package, versions, r))
            == NumFiles(versions)
               + if r.status && SuccessAt(versions, r.version, r.fileAbiTag, r.platformTag).None? then 1 else 0
  {
    var entry := EntryFor(versions, r);
    EntryWellKeyed(versions, r);
    var entry' := UpdateEntry(package, entry, r);
    assert FilesOfVersion(entry) == match Get(versions, r.version) case None => 0 case Some(w) => FilesOfVersion(w);
    SumByPut(versions, r.version, entry', FilesOfVersion);
    if r.status || HasBuild(r) {
      var key := AbiKey(r);
      var abi := GetOr(entry.builds, key, NoBuilds);
      assert FilesOf(abi) == match Get(entry.builds, key) case None => 0 case Some(w) => FilesOf(w);
      var abi' := UpdateAbi(package, abi, r);
      assert entry' == entry.(builds := Put(entry.builds, key, abi'));
      SumByPut(entry.builds, key, abi', FilesOf);
      if r.status {
        assert AbiOr(AbiAt(versions, r.version, r.fileAbiTag)) == abi;
        PutKeys(abi.successful, r.platformTag, SuccessOf(package, r));
      }
    }
  }

  /** The distinct (version, ABI, platform) triples of the successful rows. */
  function SuccessKeys(rows: seq<Row>): set<(string, string, string)>
  {
    set i | 0 <= i < |rows| && rows[i].status :: (rows[i].version, rows[i].fileAbiTag, rows[i].platformTag)
  }

  /** The file count is the number of distinct version, ABI and platform triples that built successfully. */
  lemma {:induction false} NumFilesCountsTriples(package: string, rows: seq<Row>)
    ensures NumFiles(FoldRows(package, rows)) == |SuccessKeys(rows)|
  {
    if rows != [] {
      var n := |rows| - 1;
      var prefix := rows[..n];
      var r := rows[n];
      var before := FoldRows(package, prefix);
      assert FoldRows(package, rows) == AddRow(package, before, r);
      NumFilesCountsTriples(package, prefix);
      FoldWellKeyed(package, prefix);
      FilesStep(package, before, r);
      SuccessKeysGrow(rows);
      SuccessFold(package, prefix, r.version, r.fileAbiTag, r.platformTag);
      SuccessKeysMember(package, prefix, r.version, r.fileAbiTag, r.platformTag);
    }
  }

  /** The successful triples grow by the last row's when it succeeded. */
  lemma SuccessKeysGrow(rows: seq<Row>)
    requires rows != []
    ensures var r := rows[|rows| - 1];
      SuccessKeys(rows) == SuccessKeys(rows[..|rows| - 1]) + (if r.status then {(r.version, r.fileAbiTag, r.platformTag)} else {})
  {
    var n := |rows| - 1;
    assert forall i :: 0 <= i < n ==> rows[..n][i] == rows[i];
  }

  /** A triple is among the successful ones exactly when some row built it. */
  lemma SuccessKeysMember(package: string, rows: seq<Row>, v: string, a: string, p: string)
    ensures (v, a, p) in SuccessKeys(rows) <==> LastSuccess(package, rows, v, a, p).Some?
  {
    LastSuccessExists(package, rows, v, a, p);
    if (v, a, p) in SuccessKeys(rows) {
      var i :| 0 <= i < |rows| && rows[i].status && (v, a, p) == (rows[i].version, rows[i].fileAbiTag, rows[i].platformTag);
      assert IsSuccessFor(rows[i], v, a, p);
    }
    if Succeeded(rows, v, a, p) {
      var i :| 0 <= i < |rows| && IsSuccessFor(rows[i], v, a, p);
      assert (v, a, p) == (rows[i].version, rows[i].fileAbiTag, rows[i].platformTag);
    }
  }
}
