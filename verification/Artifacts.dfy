/** Matching a PyPI release against the local distribution directory. */
module Artifacts {
  import opened Texts
  import opened Sorting

  const PACKAGE: Text := T("unlimited-skills")
  const WHEEL: Text := T(".whl")
  const SDIST: Text := T(".tar.gz")

  /** A row of the payload's `urls` that is an object: its filename and sha256, each "" when absent. */
  datatype Row = Row(filename: Text, sha256: Text)

  /** The payload as the checks read it: other rows are skipped. */
  datatype Release = Release(name: Option<Text>, version: Option<Text>, rows: seq<Row>)

  datatype Entry = Entry(name: Text, isFile: bool, content: Bytes)

  datatype Verdict =
    | Verified(digestsVerified: bool)
    | WrongName
    | WrongVersion
    | NoWheel
    | NoSdist
    | NoLocalArtifacts
    | FilenamesDiffer
    | DigestMismatch(name: Text)

  predicate IsArtifact(name: Text) { EndsWith(name, WHEEL) || EndsWith(name, SDIST) }

  function Filenames(rows: seq<Row>): (names: seq<Text>)
    ensures |names| == |rows| && forall i :: 0 <= i < |rows| ==> names[i] == rows[i].filename
  {
    seq(|rows|, i requires 0 <= i < |rows| => rows[i].filename)
  }

  predicate EntryLeq(a: Entry, b: Entry) { TextLeq(a.name, b.name) }

  /** The directory's artifacts, in path order. */
  function LocalFiles(dir: seq<Entry>): seq<Entry> {
    Sort(Artifacts(dir), EntryLeq)
  }

  function Artifacts(dir: seq<Entry>): seq<Entry> {
    if dir == [] then []
    else if dir[0].isFile && IsArtifact(dir[0].name) then [dir[0]] + Artifacts(dir[1..])
    else Artifacts(dir[1..])
  }

  function Names(files: seq<Entry>): (names: seq<Text>)
    ensures |names| == |files| && forall i :: 0 <= i < |files| ==> names[i] == files[i].name
  {
    seq(|files|, i requires 0 <= i < |files| => files[i].name)
  }

  /** A dict filled row by row: a later row of the same name wins. */
  function RemoteDigests(rows: seq<Row>): map<Text, Text> {
    if rows == [] then map[]
    else map[rows[0].filename := rows[0].sha256] + RemoteDigests(rows[1..])
  }

  /** The first file whose digest differs, if any. */
  function CheckDigests(sha: Bytes -> Text, files: seq<Entry>, digests: map<Text, Text>): Verdict {
    if files == [] then Verified(true)
    else if files[0].name in digests && digests[files[0].name] == sha(files[0].content) then
      CheckDigests(sha, files[1..], digests)
    else DigestMismatch(files[0].name)
  }

  /** The checks in the order they are made; no directory means no digest check. */
  function Validate(sha: Bytes -> Text, payload: Release, version: Text, dir: Option<seq<Entry>>): Verdict {
    var filenames := Filenames(payload.rows);
    if payload.name != Some(PACKAGE) then WrongName
    else if payload.version != Some(version) then WrongVersion
    else if !(exists i :: 0 <= i < |filenames| && EndsWith(filenames[i], WHEEL)) then NoWheel
    else if !(exists i :: 0 <= i < |filenames| && EndsWith(filenames[i], SDIST)) then NoSdist
    else match dir
      case None => Verified(false)
      case Some(entries) =>
        var files := LocalFiles(entries);
        if files == [] then NoLocalArtifacts
        else if Sort(Names(files), TextLeq) != Sort(filenames, TextLeq) then FilenamesDiffer
        else CheckDigests(sha, files, RemoteDigests(payload.rows))
  }

  // ---- the digest of a file, chunk by chunk ----

  const CHUNK: nat := 1024 * 1024

  /** A streaming hash, which by its contract hashes the bytes it has been given. */
  class Hasher {
    var absorbed: Bytes

    constructor ()
      ensures absorbed == []
    {
      absorbed := [];
    }

    method Update(chunk: Bytes)
      modifies this
      ensures absorbed == old(absorbed) + chunk
    {
      absorbed := absorbed + chunk;
    }
  }

  method Sha256File(sha: Bytes -> Text, content: Bytes) returns (digest: Text)
    ensures digest == sha(content)
  {
    var hasher := new Hasher();
    var at := 0;
    while true
      invariant at <= |content| && hasher.absorbed == content[..at]
      decreases |content| - at
    {
      var next := if at + CHUNK < |content| then at + CHUNK else |content|;
      var chunk := content[at..next];
      if chunk == [] { break; }
      hasher.Update(chunk);
      at := next;
    }
    assert content[..at] == content;
    digest := sha(hasher.absorbed);
  }

  // ---- acceptance is a one-to-one correspondence ----

  /** File names in one directory are distinct. */
  ghost predicate DistinctEntries(dir: seq<Entry>) {
    forall i, j :: 0 <= i < j < |dir| ==> dir[i].name != dir[j].name
  }

  /** `pairing[i]` is the row of the i-th local artifact. */
  ghost predicate Corresponds(sha: Bytes -> Text, local: seq<Entry>, rows: seq<Row>, pairing: seq<nat>) {
    && |pairing| == |local| == |rows|
    && (forall i :: 0 <= i < |local| ==>
          pairing[i] < |rows| && rows[pairing[i]].filename == local[i].name
          && rows[pairing[i]].sha256 == sha(local[i].content))
    && (forall i, j :: 0 <= i < j < |local| ==> pairing[i] != pairing[j])
  }

  lemma {:induction false} ArtifactsAre(dir: seq<Entry>)
    ensures forall e :: e in Artifacts(dir) <==> e in dir && e.isFile && IsArtifact(e.name)
    ensures DistinctEntries(dir) ==> DistinctEntries(Artifacts(dir))
  {
    if dir != [] {
      ArtifactsAre(dir[1..]);
      var rest := Artifacts(dir[1..]);
      assert forall e :: e in dir <==> e == dir[0] || e in dir[1..];
      if DistinctEntries(dir) {
        assert DistinctEntries(dir[1..]);
        forall i | 0 <= i < |rest| ensures rest[i].name != dir[0].name {
          assert rest[i] in dir[1..];
        }
      }
    }
  }

  lemma EntryOrder()
    ensures TotalPreorder(EntryLeq)
  {
    TextLeqTotalPreorder();
    forall a, b ensures EntryLeq(a, b) || EntryLeq(b, a) { TextLeqTotal(a.name, b.name); }
    forall a, b, c | EntryLeq(a, b) && EntryLeq(b, c) ensures EntryLeq(a, c) {
      TextLeqTransitive(a.name, b.name, c.name);
    }
  }

  lemma LocalFilesInOrder(dir: seq<Entry>)
    ensures Ordered(LocalFiles(dir), EntryLeq)
  {
    EntryOrder();
    SortOrdered(Artifacts(dir), EntryLeq);
  }

  lemma SortKeepsDistinctEntries(found: seq<Entry>)
    requires DistinctEntries(found)
    ensures DistinctEntries(Sort(found, EntryLeq))
  {
    var files := Sort(found, EntryLeq);
    SortPermutes(found, EntryLeq);
    DistinctIsBag(found);
    DistinctIsBag(files);
    forall i, j | 0 <= i < j < |files| ensures files[i].name != files[j].name {
      assert files[i] in found && files[j] in found;
    }
  }

  /** Exactly the directory's wheel and sdist files, each once and in path order. */
  lemma LocalFilesAre(dir: seq<Entry>)
    requires DistinctEntries(dir)
    ensures var files := LocalFiles(dir);
      && (forall e :: e in files <==> e in dir && e.isFile && IsArtifact(e.name))
      && DistinctEntries(files) && Distinct(Names(files))
      && Ordered(files, EntryLeq)
  {
    ArtifactsAre(dir);
    SortPermutes(Artifacts(dir), EntryLeq);
    SortKeepsDistinctEntries(Artifacts(dir));
    LocalFilesInOrder(dir);
  }

  lemma {:induction false} RemoteDigestsAre(rows: seq<Row>)
    requires Distinct(Filenames(rows))
    ensures forall i :: 0 <= i < |rows| ==>
      rows[i].filename in RemoteDigests(rows) && RemoteDigests(rows)[rows[i].filename] == rows[i].sha256
    ensures forall n :: n in RemoteDigests(rows) ==> n in Filenames(rows)
  {
    if rows != [] {
      var rest := rows[1..];
      assert forall i :: 0 <= i < |rest| ==> Filenames(rest)[i] == Filenames(rows)[i + 1];
      RemoteDigestsAre(rest);
      assert forall n :: n in Filenames(rest) ==> n in Filenames(rows);
      assert rows[0].filename !in Filenames(rest);
      assert Filenames(rows)[0] == rows[0].filename;
      forall i | 0 <= i < |rows|
        ensures rows[i].filename in RemoteDigests(rows) && RemoteDigests(rows)[rows[i].filename] == rows[i].sha256
      {
        if i > 0 {
          assert rest[i - 1] == rows[i];
        }
      }
    }
  }

  /** Of several rows of one filename the last one's digest counts. */
  lemma {:induction false} LastRowWins(rows: seq<Row>, i: nat)
    requires i < |rows| && forall j :: i < j < |rows| ==> rows[j].filename != rows[i].filename
    ensures rows[i].filename in RemoteDigests(rows) && RemoteDigests(rows)[rows[i].filename] == rows[i].sha256
    ensures forall n :: n in RemoteDigests(rows) ==> n in Filenames(rows)
  {
    var rest := rows[1..];
    assert forall k :: 0 <= k < |rest| ==> Filenames(rest)[k] == Filenames(rows)[k + 1];
    assert Filenames(rows)[0] == rows[0].filename;
    if i > 0 {
      LastRowWins(rest, i - 1);
    } else if rest != [] {
      LastRowWins(rest, |rest| - 1);
    }
  }

  lemma {:induction false} DigestsAgree(sha: Bytes -> Text, files: seq<Entry>, digests: map<Text, Text>)
    ensures CheckDigests(sha, files, digests).Verified? <==>
      forall i :: 0 <= i < |files| ==> files[i].name in digests && digests[files[i].name] == sha(files[i].content)
    ensures CheckDigests(sha, files, digests).Verified? ==> CheckDigests(sha, files, digests) == Verified(true)
  {
    if files != [] {
      DigestsAgree(sha, files[1..], digests);
      assert forall i :: 0 <= i < |files[1..]| ==> files[1..][i] == files[i + 1];
    }
  }

  /** An injection between lists of equal length without repetition covers the target. */
  lemma SubsetOfEqualLength(a: seq<Text>, b: seq<Text>)
    requires Distinct(a) && Distinct(b) && |a| == |b|
    requires forall x :: x in a ==> x in b
    ensures multiset(a) == multiset(b)
  {
    DistinctIsBag(a);
    DistinctIsBag(b);
    forall x ensures multiset(a)[x] <= multiset(b)[x] {
      assert x in a <==> x in multiset(a);
    }
    assert multiset(b) == multiset(a) + (multiset(b) - multiset(a));
    assert |multiset(b) - multiset(a)| == 0;
  }

  lemma DistinctByBag(a: seq<Text>, b: seq<Text>)
    requires Distinct(a) && multiset(a) == multiset(b)
    ensures Distinct(b)
  {
    DistinctIsBag(a);
    DistinctIsBag(b);
    forall x | x in b ensures multiset(b)[x] == 1 {
      assert x in multiset(a);
    }
  }

  function IndexOf(s: seq<Text>, x: Text): (i: nat)
    requires x in s
    ensures i < |s| && s[i] == x
  {
    if s[0] == x then 0 else 1 + IndexOf(s[1..], x)
  }

  /** Equal sorted name lists and agreeing digests give the correspondence. */
  lemma MatchCorresponds(sha: Bytes -> Text, files: seq<Entry>, rows: seq<Row>) returns (pairing: seq<nat>)
    requires Distinct(Names(files)) && multiset(Names(files)) == multiset(Filenames(rows))
    requires CheckDigests(sha, files, RemoteDigests(rows)).Verified?
    ensures Distinct(Filenames(rows)) && Corresponds(sha, files, rows, pairing)
  {
    var names, filenames := Names(files), Filenames(rows);
    DistinctByBag(names, filenames);
    assert |names| == |multiset(names)| == |multiset(filenames)| == |filenames|;
    forall i | 0 <= i < |names| ensures names[i] in filenames {
      assert names[i] in multiset(filenames);
    }
    pairing := seq(|files|, i requires 0 <= i < |files| => IndexOf(filenames, names[i]));
    RemoteDigestsAre(rows);
    DigestsAgree(sha, files, RemoteDigests(rows));
    forall i | 0 <= i < |files|
      ensures rows[pairing[i]].filename == files[i].name && rows[pairing[i]].sha256 == sha(files[i].content)
    {
      assert filenames[pairing[i]] == names[i];
    }
    forall i, j | 0 <= i < j < |files| ensures pairing[i] != pairing[j] {
      assert names[i] != names[j];
    }
  }

  lemma CorrespondsMatch(sha: Bytes -> Text, files: seq<Entry>, rows: seq<Row>, pairing: seq<nat>)
    requires Distinct(Names(files)) && Distinct(Filenames(rows)) && Corresponds(sha, files, rows, pairing)
    ensures multiset(Names(files)) == multiset(Filenames(rows))
    ensures CheckDigests(sha, files, RemoteDigests(rows)) == Verified(true)
  {
    var names, filenames := Names(files), Filenames(rows);
    forall i | 0 <= i < |names| ensures names[i] in filenames {
      assert filenames[pairing[i]] == names[i];
    }
    SubsetOfEqualLength(names, filenames);
    RemoteDigestsAre(rows);
    forall i | 0 <= i < |files|
      ensures files[i].name in RemoteDigests(rows) && RemoteDigests(rows)[files[i].name] == sha(files[i].content)
    {
      assert rows[pairing[i]].filename == files[i].name;
    }
    DigestsAgree(sha, files, RemoteDigests(rows));
  }

  lemma FilenameEnds(rows: seq<Row>, suffix: Text)
    ensures (exists i :: 0 <= i < |Filenames(rows)| && EndsWith(Filenames(rows)[i], suffix))
       <==> exists i :: 0 <= i < |rows| && EndsWith(rows[i].filename, suffix)
  {
    if i :| 0 <= i < |rows| && EndsWith(rows[i].filename, suffix) {
      assert EndsWith(Filenames(rows)[i], suffix);
    }
  }

  /** The two checks against the directory, together: the same names, and equal digests. */
  predicate DirectoryPasses(sha: Bytes -> Text, files: seq<Entry>, rows: seq<Row>) {
    Sort(Names(files), TextLeq) == Sort(Filenames(rows), TextLeq)
    && CheckDigests(sha, files, RemoteDigests(rows)) == Verified(true)
  }

  lemma DirectoryCorresponds(sha: Bytes -> Text, files: seq<Entry>, rows: seq<Row>)
    requires Distinct(Names(files))
    ensures DirectoryPasses(sha, files, rows) <==>
      Distinct(Filenames(rows)) && exists pairing :: Corresponds(sha, files, rows, pairing)
  {
    TextLeqTotalPreorder();
    TextLeqAntisymmetricOn(Names(files));
    SortIgnoresOrder(Names(files), Filenames(rows), TextLeq);
    if DirectoryPasses(sha, files, rows) {
      var pairing := MatchCorresponds(sha, files, rows);
    }
    if pairing :| Distinct(Filenames(rows)) && Corresponds(sha, files, rows, pairing) {
      CorrespondsMatch(sha, files, rows, pairing);
    }
  }

  /** With a directory, a release is accepted exactly when its name and version fit, it lists a wheel
      and an sdist, no filename twice, and its rows and the local artifacts correspond one to one with
      equal digests, although the code compares sorted lists and a last-wins map. */
  lemma AcceptanceIsBijection(sha: Bytes -> Text, payload: Release, version: Text, dir: seq<Entry>)
    requires DistinctEntries(dir)
    ensures Validate(sha, payload, version, Some(dir)) == Verified(true) <==>
      && payload.name == Some(PACKAGE) && payload.version == Some(version)
      && (exists i :: 0 <= i < |payload.rows| && EndsWith(payload.rows[i].filename, WHEEL))
      && (exists i :: 0 <= i < |payload.rows| && EndsWith(payload.rows[i].filename, SDIST))
      && Distinct(Filenames(payload.rows))
      && exists pairing :: Corresponds(sha, LocalFiles(dir), payload.rows, pairing)
  {
    LocalFilesAre(dir);
    DirectoryCorresponds(sha, LocalFiles(dir), payload.rows);
    FilenameEnds(payload.rows, WHEEL);
    FilenameEnds(payload.rows, SDIST);
  }

  // ---- which check a release fails ----

  predicate Fits(sha: Bytes -> Text, file: Entry, digests: map<Text, Text>) {
    file.name in digests && digests[file.name] == sha(file.content)
  }

  /** File `n` is the first whose digest is not the one listed for it. */
  predicate FirstWrong(sha: Bytes -> Text, files: seq<Entry>, digests: map<Text, Text>, n: int) {
    0 <= n < |files| && !Fits(sha, files[n], digests) && forall i :: 0 <= i < n ==> Fits(sha, files[i], digests)
  }

  lemma {:induction false} FirstMismatch(sha: Bytes -> Text, files: seq<Entry>, digests: map<Text, Text>)
    requires !CheckDigests(sha, files, digests).Verified?
    ensures exists n ::
      FirstWrong(sha, files, digests, n) && CheckDigests(sha, files, digests) == DigestMismatch(files[n].name)
  {
    if Fits(sha, files[0], digests) {
      var rest := files[1..];
      FirstMismatch(sha, rest, digests);
      var n :| FirstWrong(sha, rest, digests, n) && CheckDigests(sha, rest, digests) == DigestMismatch(rest[n].name);
      assert forall i :: 0 < i <= n ==> files[i] == rest[i - 1];
      assert FirstWrong(sha, files, digests, n + 1);
    } else {
      assert FirstWrong(sha, files, digests, 0);
    }
  }

  predicate Lists(payload: Release, suffix: Text) {
    exists i :: 0 <= i < |payload.rows| && EndsWith(payload.rows[i].filename, suffix)
  }

  /** What is wrong with a release: the first of name, version, wheel, sdist, local artifacts, the bag
      of filenames and the digests. Without a directory nothing more than the first four is asked. */
  lemma EachVerdictMeans(sha: Bytes -> Text, payload: Release, version: Text, dir: Option<seq<Entry>>)
    ensures var v := Validate(sha, payload, version, dir);
      var named := payload.name == Some(PACKAGE) && payload.version == Some(version);
      var listed := named && Lists(payload, WHEEL) && Lists(payload, SDIST);
      && (v == WrongName <==> payload.name != Some(PACKAGE))
      && (v == WrongVersion <==> payload.name == Some(PACKAGE) && payload.version != Some(version))
      && (v == NoWheel <==> named && !Lists(payload, WHEEL))
      && (v == NoSdist <==> named && Lists(payload, WHEEL) && !Lists(payload, SDIST))
      && (v == Verified(false) <==> listed && dir.None?)
      && (v == NoLocalArtifacts <==> listed && dir.Some? && forall e :: e in dir.value && e.isFile ==> !IsArtifact(e.name))
      && (v == FilenamesDiffer <==>
            listed && dir.Some? && LocalFiles(dir.value) != []
            && multiset(Names(LocalFiles(dir.value))) != multiset(Filenames(payload.rows)))
      && (v.DigestMismatch? ==>
            listed && dir.Some?
            && exists n :: FirstWrong(sha, LocalFiles(dir.value), RemoteDigests(payload.rows), n)
                 && v.name == LocalFiles(dir.value)[n].name)
  {
    FilenameEnds(payload.rows, WHEEL);
    FilenameEnds(payload.rows, SDIST);
    if dir.Some? {
      var files := LocalFiles(dir.value);
      DigestsAgree(sha, files, RemoteDigests(payload.rows));
      if !CheckDigests(sha, files, RemoteDigests(payload.rows)).Verified? {
        FirstMismatch(sha, files, RemoteDigests(payload.rows));
      }
      NoArtifacts(dir.value);
      TextLeqTotalPreorder();
      TextLeqAntisymmetricOn(Names(files));
      SortIgnoresOrder(Names(files), Filenames(payload.rows), TextLeq);
    }
  }

  lemma NoArtifacts(dir: seq<Entry>)
    ensures LocalFiles(dir) == [] <==> forall e :: e in dir && e.isFile ==> !IsArtifact(e.name)
  {
    ArtifactsAre(dir);
    SortPermutes(Artifacts(dir), EntryLeq);
    if LocalFiles(dir) != [] {
      assert LocalFiles(dir)[0] in LocalFiles(dir);
    }
  }
}
