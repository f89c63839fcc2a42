/** The routable-skill inventory: enumeration, priority-ordered deduplication by
    normalised name, and first-match domain counts. */
module RouterInventory {
  import Sequences
  import opened Texts
  import opened Sorting
  import opened Counting

  // ---- names ----

  predicate Allowed(c: CodePoint) {
    0x61 <= c <= 0x7A || 0x30 <= c <= 0x39 || c in {0x2E, 0x5F, 0x2D}
  }

  const DASH: CodePoint := 0x2D

  /** `re.sub("[^a-z0-9._-]+", "-", s)`. */
  function Dashed(s: Text, inRun: bool): Text {
    if s == [] then []
    else if Allowed(s[0]) then [s[0]] + Dashed(s[1..], false)
    else if inRun then Dashed(s[1..], true)
    else [DASH] + Dashed(s[1..], true)
  }

  predicate IsDash(c: CodePoint) { c == DASH }

  /** The name two skills share when only one of them is routed to. */
  function SkillIdentity(lower: CodePoint -> Text, name: Text): Text {
    Strip(Dashed(Lower(lower, Strip(name, Whitespace)), false), IsDash)
  }

  /** Lower-casing leaves the characters a normalised name consists of alone. */
  ghost predicate KeepsAllowed(lower: CodePoint -> Text) {
    forall c: CodePoint :: Allowed(c) ==> lower(c) == [c]
  }

  predicate AllAllowed(s: Text) { forall i :: 0 <= i < |s| ==> Allowed(s[i]) }

  lemma {:induction false} DashedAllowed(s: Text, inRun: bool)
    ensures AllAllowed(Dashed(s, inRun))
    ensures AllAllowed(s) ==> Dashed(s, inRun) == s
  {
    if s != [] {
      DashedAllowed(s[1..], !Allowed(s[0]));
      assert s == [s[0]] + s[1..];
    }
  }

  lemma {:induction false} LowerKeepsAllowed(lower: CodePoint -> Text, s: Text)
    requires KeepsAllowed(lower) && AllAllowed(s)
    ensures Lower(lower, s) == s
  {
    if s != [] {
      LowerKeepsAllowed(lower, s[1..]);
      assert s == [s[0]] + s[1..];
    }
  }

  /** Normalising twice is normalising once. */
  lemma IdentityIsIdempotent(lower: CodePoint -> Text, name: Text)
    requires KeepsAllowed(lower)
    ensures SkillIdentity(lower, SkillIdentity(lower, name)) == SkillIdentity(lower, name)
  {
    var d := Dashed(Lower(lower, Strip(name, Whitespace)), false);
    DashedAllowed(Lower(lower, Strip(name, Whitespace)), false);
    StripIs(d, IsDash);
    var y := Strip(d, IsDash);
    assert forall i :: 0 <= i < |y| ==> y[i] in d;
    assert Bare(y, Whitespace) by {
      assert forall c :: Allowed(c) ==> !Whitespace(c);
    }
    StripIs(y, Whitespace);
    LowerKeepsAllowed(lower, y);
    DashedAllowed(y, false);
    StripIs(y, IsDash);
  }

  // ---- what a normalised name is ----

  /** How many characters at the front may stand in a name. */
  function RunLength(s: Text): (n: nat)
    ensures n <= |s| && AllAllowed(s[..n]) && (n < |s| ==> !Allowed(s[n]))
  {
    if s == [] || !Allowed(s[0]) then 0
    else
      assert forall i :: 0 < i <= RunLength(s[1..]) ==> s[i] == s[1..][i - 1];
      1 + RunLength(s[1..])
  }

  /** The longest stretches of such characters, in order. */
  function Words(s: Text): seq<Text>
    decreases |s|
  {
    if s == [] then []
    else if !Allowed(s[0]) then Words(s[1..])
    else [s[..RunLength(s)]] + Words(s[RunLength(s)..])
  }

  predicate EndsInGap(s: Text) { Words(s) != [] && !Allowed(s[|s| - 1]) }

  function Tail(s: Text): Text { if EndsInGap(s) then [DASH] else [] }

  lemma {:induction false} DashedRun(s: Text)
    ensures Dashed(s, false) == s[..RunLength(s)] + Dashed(s[RunLength(s)..], false)
  {
    if s != [] && Allowed(s[0]) {
      var n := RunLength(s[1..]);
      DashedRun(s[1..]);
      assert s[1..][n..] == s[n + 1..];
      assert s[..n + 1] == [s[0]] + s[1..][..n];
    } else {
      assert s[0..] == s;
    }
  }

  lemma EndsLater(s: Text, n: nat)
    requires n < |s| && Words(s[n..]) != [] && Words(s) != []
    ensures EndsInGap(s) == EndsInGap(s[n..])
  {
  }

  lemma {:induction false} DashedIsWords(s: Text)
    ensures Dashed(s, true) == Join(DASH, Words(s)) + Tail(s)
    ensures Dashed(s, false) == (if s != [] && !Allowed(s[0]) then [DASH] else []) + (Join(DASH, Words(s)) + Tail(s))
    decreases |s|
  {
    if s == [] {
    } else if !Allowed(s[0]) {
      DashedIsWords(s[1..]);
      assert Tail(s) == Tail(s[1..]) by {
        if Words(s[1..]) != [] { EndsLater(s, 1); }
      }
    } else {
      var n := RunLength(s);
      var rest := s[n..];
      DashedRun(s);
      assert Dashed(s, true) == Dashed(s, false);
      DashedIsWords(rest);
      WordThenRest(s);
    }
  }

  lemma WordsSplit(s: Text)
    requires s != [] && Allowed(s[0])
    ensures var n := RunLength(s);
      Words(s) == [s[..n]] + Words(s[n..]) && Words(s)[1..] == Words(s[n..])
  {
  }

  /** Behind its first word a text ends in a gap as it did, or the gap is all there is. */
  lemma TailAfterWord(s: Text)
    requires s != [] && Allowed(s[0])
    ensures var rest := s[RunLength(s)..];
      Tail(s) == if Words(rest) == [] && rest != [] then [DASH] else Tail(rest)
  {
    var n := RunLength(s);
    var rest := s[n..];
    WordsSplit(s);
    if rest == [] {
      assert s[..n] == s;
      assert Allowed(s[|s| - 1]);
    } else if Words(rest) == [] {
      NoWordsEndInGap(rest);
      assert s[|s| - 1] == rest[|rest| - 1];
    } else {
      EndsLater(s, n);
    }
  }

  /** A word, then what follows it, which starts with a gap if there is anything. */
  lemma WordThenRest(s: Text)
    requires s != [] && Allowed(s[0])
    ensures var word, rest := s[..RunLength(s)], s[RunLength(s)..];
      Join(DASH, Words(s)) + Tail(s)
        == word + ((if rest != [] && !Allowed(rest[0]) then [DASH] else []) + (Join(DASH, Words(rest)) + Tail(rest)))
  {
    var n := RunLength(s);
    var word, rest, more := s[..n], s[n..], Words(s[n..]);
    WordsSplit(s);
    TailAfterWord(s);
    if more == [] {
      assert Tail(rest) == [];
      assert word + Tail(s) == word + (Tail(s) + ([] + []));
    } else {
      Sequences.Associate(word + [DASH], Join(DASH, more), Tail(rest));
      Sequences.Associate(word, [DASH], Join(DASH, more) + Tail(rest));
    }
  }

  predicate NoWords(s: Text) { Words(s) == [] }

  lemma {:induction false} NoWordsEndInGap(s: Text)
    requires NoWords(s)
    ensures forall i :: 0 <= i < |s| ==> !Allowed(s[i])
  {
    if s != [] {
      NoWordsEndInGap(s[1..]);
    }
  }

  /** Two skills share a name when the stretches of allowed characters in their lower-cased names,
      joined by dashes, are the same but for dashes at the ends. */
  lemma IdentityIsWords(lower: CodePoint -> Text, name: Text)
    ensures SkillIdentity(lower, name) == Strip(Join(DASH, Words(Lower(lower, Strip(name, Whitespace)))), IsDash)
  {
    var s := Lower(lower, Strip(name, Whitespace));
    var j := Join(DASH, Words(s));
    DashedIsWords(s);
    StripEnds(j, DASH, IsDash);
    StripEnds(j + Tail(s), DASH, IsDash);
    assert j + [] == j && [] + (j + Tail(s)) == j + Tail(s);
  }

  // ---- candidates ----

  /** A SKILL.md below the root: its path parts, the name and description read from it, its tokens. */
  datatype SkillFile = SkillFile(parts: seq<Text>, name: Text, description: Text, tokens: set<Text>)

  datatype Skill = Skill(file: SkillFile, collection: Text)

  const IGNORED: set<Text> := {
    T(".chroma-skills"), T(".git"), T(".mypy_cache"), T(".pytest_cache"), T(".ruff_cache"), T(".venv"),
    T("__pycache__"), T("node_modules") }

  predicate Included(parts: seq<Text>) {
    && (forall p :: p in parts ==> p !in IGNORED)
    && parts != [] && parts[0] != T("examples")
    && parts[|parts| - 1] == T("SKILL.md")
    && parts[0] in {T("packs"), T("skills"), T("plugin")}
  }

  function CollectionFor(parts: seq<Text>): Text {
    if |parts| >= 3 && parts[0] == T("packs") then parts[1]
    else if |parts| >= 2 && parts[0] in {T("skills"), T("plugin")} then T("local")
    else if parts != [] then parts[0]
    else T("local")
  }

  function Priority(collection: Text): int {
    if collection == T("ecc") then 10
    else if collection == T("superpowers") then 20
    else if collection == T("local") then 30
    else 50
  }

  datatype Candidate = Candidate(priority: int, path: Text, identity: Text, skill: Skill)

  function CandidateOf(lower: CodePoint -> Text, f: SkillFile): Candidate {
    var collection := CollectionFor(f.parts);
    Candidate(Priority(collection), Lower(lower, Join(0x2F, f.parts)), SkillIdentity(lower, f.name), Skill(f, collection))
  }

  function Candidates(lower: CodePoint -> Text, files: seq<SkillFile>): seq<Candidate> {
    if files == [] then []
    else
      var head := if Included(files[0].parts) then [CandidateOf(lower, files[0])] else [];
      head + Candidates(lower, files[1..])
  }

  // ---- orders ----

  /** Paths compare part by part. */
  predicate PartsLeq(a: seq<Text>, b: seq<Text>) {
    a == [] ||
    (b != [] && if a[0] == b[0] then PartsLeq(a[1..], b[1..]) else TextLeq(a[0], b[0]))
  }

  /** `i` is the first part in which the paths differ, and `a` has the smaller one. */
  predicate SmallerAt(a: seq<Text>, b: seq<Text>, i: int) {
    0 <= i < |a| && i < |b| && a[..i] == b[..i] && a[i] != b[i] && TextLeq(a[i], b[i])
  }

  /** The first parts that differ decide; a path comes before what lies below it. */
  lemma {:induction false} PartsLeqMeans(a: seq<Text>, b: seq<Text>)
    ensures PartsLeq(a, b) <==> a <= b || exists i :: SmallerAt(a, b, i)
  {
    if a == [] {
      assert a <= b;
    } else if b != [] {
      if a[0] == b[0] {
        PartsLeqMeans(a[1..], b[1..]);
        assert a == [a[0]] + a[1..] && b == [b[0]] + b[1..];
        if i :| SmallerAt(a[1..], b[1..], i) {
          assert a[..i + 1] == [a[0]] + a[1..][..i] && b[..i + 1] == [b[0]] + b[1..][..i];
          assert SmallerAt(a, b, i + 1);
        }
        if i :| SmallerAt(a, b, i) {
          assert a[1..][..i - 1] == a[..i][1..] && b[1..][..i - 1] == b[..i][1..];
          assert SmallerAt(a[1..], b[1..], i - 1);
        }
      } else if TextLeq(a[0], b[0]) {
        assert SmallerAt(a, b, 0);
      } else {
        forall i ensures !SmallerAt(a, b, i) {
          assert 0 < i < |a| && i < |b| ==> a[..i][0] != b[..i][0];
        }
      }
    }
  }

  predicate FileLeq(a: SkillFile, b: SkillFile) { PartsLeq(a.parts, b.parts) }

  predicate KeyLeq(a: Candidate, b: Candidate) {
    a.priority < b.priority || (a.priority == b.priority && TextLeq(a.path, b.path))
  }

  predicate CandidatePathLeq(a: Candidate, b: Candidate) { FileLeq(a.skill.file, b.skill.file) }

  lemma {:induction false} PartsTotal(a: seq<Text>, b: seq<Text>)
    ensures PartsLeq(a, b) || PartsLeq(b, a)
    ensures PartsLeq(a, b) && PartsLeq(b, a) ==> a == b
  {
    if a != [] && b != [] {
      if a[0] == b[0] {
        PartsTotal(a[1..], b[1..]);
        assert a == [a[0]] + a[1..] && b == [b[0]] + b[1..];
      } else {
        TextLeqTotal(a[0], b[0]);
        if TextLeq(a[0], b[0]) && TextLeq(b[0], a[0]) {
          TextLeqAntisymmetric(a[0], b[0]);
        }
      }
    }
  }

  lemma {:induction false} PartsTransitive(a: seq<Text>, b: seq<Text>, c: seq<Text>)
    requires PartsLeq(a, b) && PartsLeq(b, c)
    ensures PartsLeq(a, c)
  {
    if a != [] {
      if a[0] == b[0] == c[0] {
        PartsTransitive(a[1..], b[1..], c[1..]);
      } else {
        TextLeqTotal(a[0], b[0]);
        TextLeqTotal(b[0], c[0]);
        TextLeqTransitive(a[0], b[0], c[0]);
        if a[0] == c[0] {
          TextLeqAntisymmetric(a[0], b[0]);
        }
      }
    }
  }

  lemma Orders()
    ensures TotalPreorder(FileLeq) && TotalPreorder(KeyLeq)
  {
    forall a: SkillFile, b: SkillFile ensures FileLeq(a, b) || FileLeq(b, a) { PartsTotal(a.parts, b.parts); }
    forall a: SkillFile, b: SkillFile, c: SkillFile | FileLeq(a, b) && FileLeq(b, c) ensures FileLeq(a, c) {
      PartsTransitive(a.parts, b.parts, c.parts);
    }
    forall a: Candidate, b: Candidate ensures KeyLeq(a, b) || KeyLeq(b, a) { TextLeqTotal(a.path, b.path); }
    forall a: Candidate, b: Candidate, c: Candidate | KeyLeq(a, b) && KeyLeq(b, c) ensures KeyLeq(a, c) {
      if a.priority == c.priority { TextLeqTransitive(a.path, b.path, c.path); }
    }
  }

  // ---- deduplication ----

  function Dedup(cs: seq<Candidate>, seen: set<Text>): seq<Candidate> {
    if cs == [] then []
    else if cs[0].identity in seen then Dedup(cs[1..], seen)
    else [cs[0]] + Dedup(cs[1..], seen + {cs[0].identity})
  }

  function RankedCandidates(lower: CodePoint -> Text, files: seq<SkillFile>): seq<Candidate> {
    Sort(Candidates(lower, Sort(files, FileLeq)), KeyLeq)
  }

  function Chosen(lower: CodePoint -> Text, files: seq<SkillFile>): seq<Candidate> {
    Dedup(RankedCandidates(lower, files), {})
  }

  function Skills(cs: seq<Candidate>): seq<Skill> {
    seq(|cs|, i requires 0 <= i < |cs| => cs[i].skill)
  }

  lemma {:induction false} CandidatesAppend(lower: CodePoint -> Text, a: seq<SkillFile>, f: SkillFile)
    ensures Candidates(lower, a + [f])
      == Candidates(lower, a) + (if Included(f.parts) then [CandidateOf(lower, f)] else [])
  {
    if a == [] {
      assert a + [f] == [f] && [f][1..] == [];
    } else {
      assert (a + [f])[1..] == a[1..] + [f];
      CandidatesAppend(lower, a[1..], f);
      var head := if Included(a[0].parts) then [CandidateOf(lower, a[0])] else [];
      var last := if Included(f.parts) then [CandidateOf(lower, f)] else [];
      Sequences.Associate(head, Candidates(lower, a[1..]), last);
    }
  }

  /** The generator: candidates in path order, ranked, one per identity. */
  method IterRoutableSkills(lower: CodePoint -> Text, files: seq<SkillFile>) returns (skills: seq<Skill>)
    ensures skills == Skills(Chosen(lower, files))
  {
    var sorted := Sort(files, FileLeq);
    var candidates: seq<Candidate> := [];
    for i := 0 to |sorted|
      invariant candidates == Candidates(lower, sorted[..i])
    {
      assert sorted[..i + 1] == sorted[..i] + [sorted[i]];
      CandidatesAppend(lower, sorted[..i], sorted[i]);
      if Included(sorted[i].parts) {
        candidates := candidates + [CandidateOf(lower, sorted[i])];
      }
    }
    assert sorted[..|sorted|] == sorted;

    var ranked := Sort(candidates, KeyLeq);
    var seen: set<Text> := {};
    skills := [];
    ghost var chosen: seq<Candidate> := [];
    for i := 0 to |ranked|
      invariant chosen + Dedup(ranked[i..], seen) == Dedup(ranked, {})
      invariant skills == Skills(chosen)
    {
      var c := ranked[i];
      assert ranked[i..][0] == c && ranked[i..][1..] == ranked[i + 1..];
      if c.identity !in seen {
        seen := seen + {c.identity};
        skills := skills + [c.skill];
        assert chosen + ([c] + Dedup(ranked[i + 1..], seen)) == (chosen + [c]) + Dedup(ranked[i + 1..], seen);
        chosen := chosen + [c];
      }
    }
    assert ranked[|ranked|..] == [];
  }

  // ---- the chosen are the best of each name ----

  predicate Ranked(a: Candidate, b: Candidate) { Lexicographic(KeyLeq, CandidatePathLeq, a, b) }

  lemma {:induction false} CandidatesAre(lower: CodePoint -> Text, files: seq<SkillFile>)
    ensures forall c :: c in Candidates(lower, files) <==>
      exists f :: f in files && Included(f.parts) && c == CandidateOf(lower, f)
    ensures Ordered(files, FileLeq) ==> Ordered(Candidates(lower, files), CandidatePathLeq)
  {
    if files != [] {
      var rest := Candidates(lower, files[1..]);
      CandidatesAre(lower, files[1..]);
      assert forall f :: f in files <==> f == files[0] || f in files[1..];
      if Ordered(files, FileLeq) {
        forall j | 0 <= j < |rest| ensures FileLeq(files[0], rest[j].skill.file) {
          assert rest[j] in rest;
          var f :| f in files[1..] && Included(f.parts) && rest[j] == CandidateOf(lower, f);
        }
      }
    }
  }

  /** Some chosen candidate has `c`'s identity and ranks no worse. */
  ghost predicate Represented(r: seq<Candidate>, c: Candidate) {
    exists k :: 0 <= k < |r| && r[k].identity == c.identity && (r[k] == c || Ranked(r[k], c))
  }

  lemma {:induction false} DedupIsDistinct(cs: seq<Candidate>, seen: set<Text>)
    ensures var r := Dedup(cs, seen);
      && (forall i, j :: 0 <= i < j < |r| ==> r[i].identity != r[j].identity)
      && (forall c :: c in r ==> c in cs && c.identity !in seen)
  {
    if cs != [] {
      DedupIsDistinct(cs[1..], if cs[0].identity in seen then seen else seen + {cs[0].identity});
    }
  }

  lemma {:induction false} DedupRepresents(cs: seq<Candidate>, seen: set<Text>, i: nat)
    requires OrderedThen(cs, KeyLeq, CandidatePathLeq) && i < |cs| && cs[i].identity !in seen
    ensures Represented(Dedup(cs, seen), cs[i])
  {
    var c, r := cs[i], Dedup(cs, seen);
    if c.identity == cs[0].identity {
      assert r[0] == cs[0] && (i > 0 ==> Ranked(cs[0], cs[i]));
    } else {
      var seen' := if cs[0].identity in seen then seen else seen + {cs[0].identity};
      var rest := Dedup(cs[1..], seen');
      DedupRepresents(cs[1..], seen', i - 1);
      var k :| 0 <= k < |rest| && rest[k].identity == c.identity && (rest[k] == c || Ranked(rest[k], c));
      assert r[if cs[0].identity in seen then k else k + 1] == rest[k];
    }
  }

  /** File paths below one root are distinct. */
  ghost predicate DistinctPaths(files: seq<SkillFile>) {
    forall i, j :: 0 <= i < j < |files| ==> files[i].parts != files[j].parts
  }

  lemma RankedCandidatesAre(lower: CodePoint -> Text, files: seq<SkillFile>)
    ensures forall c :: c in RankedCandidates(lower, files) <==>
      exists f :: f in files && Included(f.parts) && c == CandidateOf(lower, f)
    ensures OrderedThen(RankedCandidates(lower, files), KeyLeq, CandidatePathLeq)
  {
    var sorted := Sort(files, FileLeq);
    Orders();
    SortPermutes(files, FileLeq);
    SortOrdered(files, FileLeq);
    CandidatesAre(lower, sorted);
    SortPermutes(Candidates(lower, sorted), KeyLeq);
    SortIsStable(Candidates(lower, sorted), KeyLeq, CandidatePathLeq);
  }

  /** Every included SKILL.md's name is represented exactly once, by a candidate of that name that
      no other precedes in priority, then lower-cased path, then path. */
  lemma InventoryPicksBest(lower: CodePoint -> Text, files: seq<SkillFile>)
    ensures var r := Chosen(lower, files);
      && (forall i, j :: 0 <= i < j < |r| ==> r[i].identity != r[j].identity)
      && (forall c :: c in r ==> exists f :: f in files && Included(f.parts) && c == CandidateOf(lower, f))
      && (forall f :: f in files && Included(f.parts) ==> Represented(r, CandidateOf(lower, f)))
  {
    RankedCandidatesAre(lower, files);
    var ranked := RankedCandidates(lower, files);
    DedupIsDistinct(ranked, {});
    forall f | f in files && Included(f.parts) ensures Represented(Chosen(lower, files), CandidateOf(lower, f)) {
      assert CandidateOf(lower, f) in ranked;
      var i :| 0 <= i < |ranked| && ranked[i] == CandidateOf(lower, f);
      DedupRepresents(ranked, {}, i);
    }
  }

  // ---- which of several files of one name that is ----

  predicate UnderPack(parts: seq<Text>, pack: Text) { |parts| >= 3 && parts[0] == T("packs") && parts[1] == pack }

  predicate Local(parts: seq<Text>) { parts != [] && parts[0] in {T("skills"), T("plugin")} }

  /** The pack "ecc" comes first, then "superpowers", then what is local, then every other pack. */
  function Standing(parts: seq<Text>): nat {
    if UnderPack(parts, T("ecc")) then 0
    else if UnderPack(parts, T("superpowers")) then 1
    else if UnderPack(parts, T("local")) || (Local(parts) && |parts| >= 2) then 2
    else 3
  }

  function LowerPath(lower: CodePoint -> Text, parts: seq<Text>): Text { Lower(lower, Join(0x2F, parts)) }

  /** `f` stands before `g`; of equal standing it has the smaller lower-cased path, or else path. */
  ghost predicate Preferred(lower: CodePoint -> Text, f: SkillFile, g: SkillFile) {
    var a, b := LowerPath(lower, f.parts), LowerPath(lower, g.parts);
    Standing(f.parts) < Standing(g.parts)
    || (Standing(f.parts) == Standing(g.parts) && a != b && TextLeq(a, b))
    || (Standing(f.parts) == Standing(g.parts) && a == b && f.parts != g.parts && PartsLeq(f.parts, g.parts))
  }

  lemma PlacesDiffer()
    ensures |T("packs")| == 5 && |T("skills")| == 6 && |T("plugin")| == 6
    ensures |T("ecc")| == 3 && |T("superpowers")| == 11 && |T("local")| == 5
    ensures T("local") != T("packs")
  {
    LiteralsDiffer("local", "packs");
  }

  /** The files that are looked at; that none lies under "examples" follows. */
  lemma IncludedExactly(parts: seq<Text>)
    ensures Included(parts) <==>
      && parts != [] && parts[0] in {T("packs"), T("skills"), T("plugin")} && parts[|parts| - 1] == T("SKILL.md")
      && forall i :: 0 <= i < |parts| ==> parts[i] !in IGNORED
  {
    PlacesDiffer();
    assert |T("examples")| == 8;
  }

  /** The collection of an included file: the pack it lies in, or "local". */
  lemma CollectionMeans(parts: seq<Text>)
    requires Included(parts)
    ensures parts[0] == T("packs") ==> CollectionFor(parts) == if |parts| == 2 then T("packs") else parts[1]
    ensures parts[0] != T("packs") ==> CollectionFor(parts) == T("local")
    ensures |parts| >= 2
  {
    PlacesDiffer();
    assert |T("SKILL.md")| == 8;
  }

  lemma PriorityIsStanding(f: SkillFile, g: SkillFile)
    requires Included(f.parts) && Included(g.parts)
    ensures Priority(CollectionFor(f.parts)) < Priority(CollectionFor(g.parts)) <==> Standing(f.parts) < Standing(g.parts)
  {
    PriorityOf(f);
    PriorityOf(g);
  }

  lemma PriorityOf(f: SkillFile)
    requires Included(f.parts)
    ensures Priority(CollectionFor(f.parts)) == [10, 20, 30, 50][Standing(f.parts)]
  {
    PlacesDiffer();
  }

  lemma PreferredRanks(lower: CodePoint -> Text, f: SkillFile, g: SkillFile)
    requires Included(f.parts) && Included(g.parts) && Preferred(lower, f, g)
    ensures CandidateOf(lower, f) != CandidateOf(lower, g) && !Ranked(CandidateOf(lower, g), CandidateOf(lower, f))
  {
    PriorityIsStanding(f, g);
    PriorityIsStanding(g, f);
    var a, b := LowerPath(lower, f.parts), LowerPath(lower, g.parts);
    TextLeqTotal(a, a);
    PartsTotal(f.parts, g.parts);
    if a != b && TextLeq(a, b) && TextLeq(b, a) {
      TextLeqAntisymmetric(a, b);
    }
  }

  /** Of two files of one name the one that is not preferred is not routed to: a skill of the pack
      "ecc" hides its namesakes everywhere else, one of "superpowers" the local and the other ones. */
  lemma PreferredHides(lower: CodePoint -> Text, files: seq<SkillFile>, f: SkillFile, g: SkillFile)
    requires f in files && g in files && Included(f.parts) && Included(g.parts)
    requires SkillIdentity(lower, f.name) == SkillIdentity(lower, g.name) && Preferred(lower, f, g)
    ensures CandidateOf(lower, g) !in Chosen(lower, files)
  {
    var r, cf, cg := Chosen(lower, files), CandidateOf(lower, f), CandidateOf(lower, g);
    InventoryPicksBest(lower, files);
    var k :| 0 <= k < |r| && r[k].identity == cf.identity && (r[k] == cf || Ranked(r[k], cf));
    PreferredRanks(lower, f, g);
    forall j | 0 <= j < |r| ensures r[j] != cg {
      assert j != k ==> r[j].identity != r[k].identity;
    }
  }

  /** The order in which the directory lists its files does not matter. */
  lemma EnumerationOrderIsIrrelevant(lower: CodePoint -> Text, files: seq<SkillFile>, other: seq<SkillFile>)
    requires DistinctPaths(files) && multiset(files) == multiset(other)
    ensures Chosen(lower, files) == Chosen(lower, other)
  {
    Orders();
    assert AntisymmetricOn(files, FileLeq) by {
      forall a, b | a in files && b in files && FileLeq(a, b) && FileLeq(b, a) ensures a == b {
        PartsTotal(a.parts, b.parts);
      }
    }
    SortIgnoresOrder(files, other, FileLeq);
  }

  // ---- the snapshot ----

  datatype Domain = Domain(name: Text, tokens: set<Text>)

  const OTHER: Text := T("other/uncategorized")

  function DomainNames(ds: seq<Domain>): (names: seq<Text>)
    ensures |names| == |ds| && forall i :: 0 <= i < |ds| ==> names[i] == ds[i].name
  {
    seq(|ds|, i requires 0 <= i < |ds| => ds[i].name)
  }

  /** The domain a skill counts for: the first in map order that shares a token with it. */
  function FirstMatch(skill: Skill, ds: seq<Domain>): Text {
    if ds == [] then OTHER
    else if ds[0].name != OTHER && skill.file.tokens * ds[0].tokens != {} then ds[0].name
    else FirstMatch(skill, ds[1..])
  }

  /** The two names the snapshot counts a skill under. */
  function ByDomain(ds: seq<Domain>): Skill -> Text { (s: Skill) => FirstMatch(s, ds) }

  function ByCollection(): Skill -> Text { (s: Skill) => s.collection }

  lemma FirstMatchNamed(skill: Skill, ds: seq<Domain>)
    requires OTHER in DomainNames(ds)
    ensures FirstMatch(skill, ds) in DomainNames(ds)
  {
    FirstMatchIs(skill, ds);
  }

  lemma {:induction false} FirstMatchIs(skill: Skill, ds: seq<Domain>)
    ensures FirstMatch(skill, ds) == OTHER || FirstMatch(skill, ds) in DomainNames(ds)
  {
    if ds != [] {
      FirstMatchIs(skill, ds[1..]);
      assert forall i :: 0 <= i < |ds| - 1 ==> DomainNames(ds[1..])[i] == DomainNames(ds)[i + 1];
      assert DomainNames(ds)[0] == ds[0].name;
    }
  }

  /** The counting loop of the snapshot; a map without "other/uncategorized" is refused. */
  method BuildSnapshot(skills: seq<Skill>, ds: seq<Domain>)
    returns (collections: map<Text, nat>, domains: Option<map<Text, nat>>)
    ensures domains.Some? <==> OTHER in DomainNames(ds)
    ensures domains.Some? ==>
      && (forall name :: name in domains.value <==> name in DomainNames(ds))
      && (forall name :: name in domains.value ==> domains.value[name] == CountBy(skills, ByDomain(ds), name))
      && Tallies(collections, skills, ByCollection())
  {
    collections := map[];
    var names := DomainNames(ds);
    if OTHER !in names { return map[], None; }
    var counts: map<Text, nat> := map name | name in names :: 0;
    for i := 0 to |skills|
      invariant forall name :: name in counts <==> name in names
      invariant forall name :: name in counts ==> counts[name] == CountBy(skills[..i], ByDomain(ds), name)
      invariant Tallies(collections, skills[..i], ByCollection())
    {
      TallyStep(collections, skills, ByCollection(), i);
      collections := Bump(collections, skills[i].collection);
      var matched := MatchDomain(skills[i], ds);
      FirstMatchNamed(skills[i], ds);
      CountStep(skills, ByDomain(ds), i);
      counts := counts[matched := counts[matched] + 1];
    }
    assert skills[..|skills|] == skills;
    domains := Some(counts);
  }

  method MatchDomain(skill: Skill, ds: seq<Domain>) returns (name: Text)
    ensures name == FirstMatch(skill, ds)
  {
    for i := 0 to |ds|
      invariant FirstMatch(skill, ds) == FirstMatch(skill, ds[i..])
    {
      assert ds[i..][1..] == ds[i + 1..];
      if ds[i].name == OTHER { continue; }
      if skill.file.tokens * ds[i].tokens != {} { return ds[i].name; }
    }
    return OTHER;
  }

  // ---- conservation of the counts ----

  /** With distinct domain names the domain counts sum to the number of skills. */
  lemma DomainCountsSum(skills: seq<Skill>, ds: seq<Domain>)
    requires Distinct(DomainNames(ds)) && OTHER in DomainNames(ds)
    ensures Total(DomainNames(ds), n => CountBy(skills, ByDomain(ds), n)) == |skills|
  {
    forall s | s in skills ensures ByDomain(ds)(s) in DomainNames(ds) {
      FirstMatchNamed(s, ds);
    }
    CountsSum(skills, ByDomain(ds), DomainNames(ds));
  }

  /** The collection counts sum to the number of skills over any list of all collections. */
  lemma CollectionCountsSum(skills: seq<Skill>, names: seq<Text>)
    requires Distinct(names) && forall s :: s in skills ==> s.collection in names
    ensures Total(names, n => CountBy(skills, ByCollection(), n)) == |skills|
  {
    CountsSum(skills, ByCollection(), names);
  }

  /** A new last domain takes skills from "other/uncategorized" and from nowhere else. */
  lemma {:induction false} NewDomainRefines(skill: Skill, ds: seq<Domain>, d: Domain)
    ensures FirstMatch(skill, ds + [d]) ==
      if FirstMatch(skill, ds) == OTHER && d.name != OTHER && skill.file.tokens * d.tokens != {} then d.name
      else FirstMatch(skill, ds)
  {
    if ds == [] {
      assert ds + [d] == [d] && [d][1..] == [];
    } else {
      assert (ds + [d])[1..] == ds[1..] + [d];
      NewDomainRefines(skill, ds[1..], d);
    }
  }

  /** So no other domain's count changes, and what "other" loses the new domain gains. */
  lemma {:induction false} NewDomainMovesOnlyOther(skills: seq<Skill>, ds: seq<Domain>, d: Domain)
    requires d.name != OTHER && d.name !in DomainNames(ds)
    ensures forall n :: n != OTHER && n != d.name ==>
      CountBy(skills, ByDomain(ds + [d]), n) == CountBy(skills, ByDomain(ds), n)
    ensures CountBy(skills, ByDomain(ds + [d]), OTHER) + CountBy(skills, ByDomain(ds + [d]), d.name)
         == CountBy(skills, ByDomain(ds), OTHER)
  {
    if skills != [] {
      var last := skills[|skills| - 1];
      NewDomainMovesOnlyOther(skills[..|skills| - 1], ds, d);
      NewDomainRefines(last, ds, d);
      FirstMatchIs(last, ds);
    }
  }
}
