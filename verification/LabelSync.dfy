/** Label reconciliation: the plan against a remote label map, what applying it
    does, and when a second plan is empty. */
module LabelSync {
  import opened Texts

  datatype Label = Label(color: Text, description: Text)

  datatype Wanted = Wanted(name: Text, target: Label)

  /** An entry of labels.yml: unusable, or a name with its colour and description ("" when absent). */
  datatype Item = Unusable | Entry(name: Text, target: Label)

  datatype Change = Create(name: Text, target: Label) | Update(name: Text, target: Label)

  const HASH: CodePoint := 0x23

  type Remote = map<Text, Label>

  /** Case folding, and the form in which the remote stores a colour. */
  datatype Host = Host(lower: CodePoint -> Text, store: Text -> Text)

  predicate IsHash(c: CodePoint) { c == HASH }

  /** `color.lstrip("#").lower()`. */
  function Folded(h: Host, color: Text): Text {
    Lower(h.lower, StripLeft(color, IsHash))
  }

  /** No character but "#" lower-cases to a text with "#", and a stored colour reads back equal. */
  ghost predicate Faithful(h: Host) {
    && h.lower(HASH) == [HASH]
    && (forall c: CodePoint :: c != HASH ==> h.lower(c) != [] && HASH !in h.lower(c))
    && (forall color {:trigger h.store(color)} :: Folded(h, h.store(color)) == Folded(h, color))
  }

  // ---- the desired labels ----

  /** `labels[name] = ...` on a dict kept in insertion order. */
  function PutWanted(ws: seq<Wanted>, w: Wanted): seq<Wanted> {
    if ws == [] then [w]
    else if ws[0].name == w.name then [w] + ws[1..]
    else [ws[0]] + PutWanted(ws[1..], w)
  }

  predicate DistinctNames(ws: seq<Wanted>) {
    forall i, j :: 0 <= i < j < |ws| ==> ws[i].name != ws[j].name
  }

  lemma {:induction false} PutKeepsDistinct(ws: seq<Wanted>, w: Wanted)
    requires DistinctNames(ws)
    ensures DistinctNames(PutWanted(ws, w))
    ensures forall x :: x in PutWanted(ws, w) <==> x == w || (x in ws && x.name != w.name)
  {
    if ws != [] {
      PutKeepsDistinct(ws[1..], w);
      assert forall x :: x in ws <==> x == ws[0] || x in ws[1..];
    }
  }

  /** The last entry of a name, among the first `n` items. */
  ghost predicate LastEntry(items: seq<Item>, n: nat, w: Wanted)
    requires n <= |items|
  {
    exists i :: 0 <= i < n && items[i] == Entry(w.name, w.target)
      && forall j :: i < j < n ==> items[j].Entry? ==> items[j].name != w.name
  }

  method LoadDesired(items: seq<Item>) returns (desired: Option<seq<Wanted>>)
    ensures desired.None? <==> Unusable in items
    ensures desired.Some? ==> DistinctNames(desired.value)
    ensures desired.Some? ==> forall w :: w in desired.value <==> LastEntry(items, |items|, w)
  {
    var labels: seq<Wanted> := [];
    for n := 0 to |items|
      invariant Unusable !in items[..n]
      invariant DistinctNames(labels)
      invariant forall w :: w in labels <==> LastEntry(items, n, w)
    {
      if items[n].Unusable? { return None; }
      var w := Wanted(items[n].name, items[n].target);
      PutKeepsDistinct(labels, w);
      forall x ensures LastEntry(items, n + 1, x) <==> x == w || (LastEntry(items, n, x) && x.name != w.name) {
        if LastEntry(items, n, x) && x.name != w.name {
          var i :| 0 <= i < n && items[i] == Entry(x.name, x.target)
            && forall j :: i < j < n ==> items[j].Entry? ==> items[j].name != x.name;
          assert LastEntry(items, n + 1, x);
        }
        if x == w {
          assert items[n] == Entry(x.name, x.target);
        }
      }
      labels := PutWanted(labels, w);
    }
    return Some(labels);
  }

  // ---- plan and apply ----

  predicate Differs(h: Host, current: Label, target: Label) {
    Folded(h, current.color) != Lower(h.lower, target.color) || current.description != target.description
  }

  function PlanOne(h: Host, w: Wanted, existing: Remote): seq<Change> {
    if w.name !in existing then [Create(w.name, w.target)]
    else if Differs(h, existing[w.name], w.target) then [Update(w.name, w.target)]
    else []
  }

  function Plan(h: Host, desired: seq<Wanted>, existing: Remote): seq<Change> {
    if desired == [] then []
    else Plan(h, desired[..|desired| - 1], existing) + PlanOne(h, desired[|desired| - 1], existing)
  }

  method PlanChanges(h: Host, desired: seq<Wanted>, existing: Remote) returns (changes: seq<Change>)
    ensures changes == Plan(h, desired, existing)
  {
    changes := [];
    for i := 0 to |desired|
      invariant changes == Plan(h, desired[..i], existing)
    {
      assert desired[..i + 1][..i] == desired[..i];
      var name, target := desired[i].name, desired[i].target;
      if name !in existing {
        changes := changes + [Create(name, target)];
        continue;
      }
      if Differs(h, existing[name], target) {
        changes := changes + [Update(name, target)];
      }
    }
    assert desired[..|desired|] == desired;
  }

  /** What `gh label create` or `edit` leaves behind. */
  function Apply(h: Host, remote: Remote, c: Change): Remote {
    remote[c.name := Label(h.store(c.target.color), c.target.description)]
  }

  function ApplyAll(h: Host, remote: Remote, changes: seq<Change>): Remote {
    if changes == [] then remote
    else Apply(h, ApplyAll(h, remote, changes[..|changes| - 1]), changes[|changes| - 1])
  }

  /** The repository whose labels the tool edits. */
  class Repository {
    var labels: Remote

    /** Fails, as `gh` does, on creating what is there or editing what is not. */
    method ApplyChange(h: Host, c: Change) returns (ok: bool)
      modifies this
      ensures ok <==> if c.Create? then c.name !in old(labels) else c.name in old(labels)
      ensures labels == if ok then Apply(h, old(labels), c) else old(labels)
    {
      ok := if c.Create? then c.name !in labels else c.name in labels;
      if ok { labels := Apply(h, labels, c); }
    }

    /** The apply loop, which stops at the first failure; on its own plan there is none. */
    method Sync(h: Host, desired: seq<Wanted>) returns (ok: bool)
      requires DistinctNames(desired)
      modifies this
      ensures ok && labels == ApplyAll(h, old(labels), Plan(h, desired, old(labels)))
    {
      var existing := labels;
      var changes := PlanChanges(h, desired, existing);
      PlanIsSound(h, desired, existing);
      for i := 0 to |changes|
        invariant labels == ApplyAll(h, existing, changes[..i])
      {
        NextApplies(h, existing, changes, i);
        var applied := ApplyChange(h, changes[i]);
        if !applied { return false; }
      }
      assert changes[..|changes|] == changes;
      return true;
    }
  }

  // ---- the plan ----

  predicate OncePerName(changes: seq<Change>) {
    forall i, j :: 0 <= i < j < |changes| ==> changes[i].name != changes[j].name
  }

  /** Each planned change is for a desired label that is missing or differs, once per name. */
  lemma {:induction false} PlanIsSound(h: Host, desired: seq<Wanted>, existing: Remote)
    requires DistinctNames(desired)
    ensures var plan := Plan(h, desired, existing);
      && OncePerName(plan)
      && (forall c :: c in plan <==> exists w :: w in desired && c in PlanOne(h, w, existing))
      && (forall c :: c in plan ==> (c.Create? <==> c.name !in existing))
  {
    if desired != [] {
      var front, last := desired[..|desired| - 1], desired[|desired| - 1];
      PlanIsSound(h, front, existing);
      assert forall w :: w in desired <==> w in front || w == last;
      forall c | c in Plan(h, front, existing) ensures c.name != last.name {
        var w :| w in front && c in PlanOne(h, w, existing);
      }
    }
  }

  predicate Touches(changes: seq<Change>, name: Text) {
    exists i :: 0 <= i < |changes| && changes[i].name == name
  }

  lemma TouchesSplit(changes: seq<Change>, name: Text)
    requires changes != []
    ensures Touches(changes, name) <==>
      Touches(changes[..|changes| - 1], name) || changes[|changes| - 1].name == name
  {
    var front := changes[..|changes| - 1];
    if Touches(front, name) {
      var i :| 0 <= i < |front| && front[i].name == name;
      assert changes[i].name == name;
    }
    if i :| 0 <= i < |changes| && changes[i].name == name {
      assert i < |front| ==> front[i].name == name;
    }
  }

  /** What a list of changes makes of one label it does or does not touch. */
  lemma {:induction false} AppliedLabel(h: Host, remote: Remote, changes: seq<Change>, name: Text)
    ensures var r := ApplyAll(h, remote, changes);
      && (name in r <==> name in remote || Touches(changes, name))
      && (name in remote && !Touches(changes, name) ==> r[name] == remote[name])
  {
    if changes != [] {
      AppliedLabel(h, remote, changes[..|changes| - 1], name);
      TouchesSplit(changes, name);
    }
  }

  /** Among changes with distinct names each one gets its way. */
  lemma {:induction false} AppliedChange(h: Host, remote: Remote, changes: seq<Change>, i: nat)
    requires OncePerName(changes) && i < |changes|
    ensures var r, c := ApplyAll(h, remote, changes), changes[i];
      c.name in r && r[c.name] == Label(h.store(c.target.color), c.target.description)
  {
    if i < |changes| - 1 {
      AppliedChange(h, remote, changes[..|changes| - 1], i);
    }
  }

  lemma NextApplies(h: Host, existing: Remote, changes: seq<Change>, i: nat)
    requires OncePerName(changes) && i < |changes|
    ensures var r := ApplyAll(h, existing, changes[..i]);
      && (changes[i].name in r <==> changes[i].name in existing)
      && ApplyAll(h, existing, changes[..i + 1]) == Apply(h, r, changes[i])
  {
    assert changes[..i + 1][..i] == changes[..i];
    AppliedLabel(h, existing, changes[..i], changes[i].name);
  }

  /** A plan touches no name that no desired label in need of a change carries. */
  lemma PlanLeaves(h: Host, desired: seq<Wanted>, existing: Remote, name: Text)
    requires DistinctNames(desired)
    requires forall w :: w in desired && w.name == name ==> PlanOne(h, w, existing) == []
    ensures !Touches(Plan(h, desired, existing), name)
  {
    var plan := Plan(h, desired, existing);
    PlanIsSound(h, desired, existing);
    forall i | 0 <= i < |plan| ensures plan[i].name != name {
      assert plan[i] in plan;
      var w :| w in desired && plan[i] in PlanOne(h, w, existing);
    }
  }

  // ---- convergence ----

  lemma LowerWithoutHash(h: Host, s: Text)
    requires Faithful(h) && s != [] && s[0] != HASH
    ensures Lower(h.lower, s) != [] && Lower(h.lower, s)[0] != HASH
  {
    assert h.lower(s[0]) != [] && HASH !in h.lower(s[0]);
    assert Lower(h.lower, s)[0] == h.lower(s[0])[0];
  }

  lemma FoldedWithoutHash(h: Host, color: Text)
    requires color == [] || color[0] != HASH
    ensures Folded(h, color) == Lower(h.lower, color)
  {
    StripLeftIs(color, IsHash);
  }

  lemma StoredColor(h: Host, color: Text)
    requires Faithful(h)
    ensures Folded(h, h.store(color)) == Folded(h, color)
  {
  }

  /** A freshly written label reads back as wanted exactly when its colour has no leading "#". */
  lemma WrittenLabelDiffers(h: Host, target: Label)
    requires Faithful(h)
    ensures Differs(h, Label(h.store(target.color), target.description), target)
       <==> target.color != [] && target.color[0] == HASH
  {
    var c := target.color;
    var stored := h.store(c);
    if c != [] && c[0] == HASH {
      HashNeverEqual(h, stored, c);
    } else {
      StoredColor(h, c);
      FoldedWithoutHash(h, c);
    }
  }

  /** A colour with a leading "#" equals no colour the remote can hold. */
  lemma HashNeverEqual(h: Host, current: Text, wanted: Text)
    requires Faithful(h) && wanted != [] && wanted[0] == HASH
    ensures Folded(h, current) != Lower(h.lower, wanted)
  {
    var s := StripLeft(current, IsHash);
    StripLeftIs(current, IsHash);
    assert Lower(h.lower, wanted)[0] == HASH;
    if s != [] {
      LowerWithoutHash(h, s);
    }
  }

  ghost predicate NoHash(desired: seq<Wanted>) {
    forall w :: w in desired ==> w.target.color == [] || w.target.color[0] != HASH
  }

  lemma PlannedLabel(h: Host, desired: seq<Wanted>, remote: Remote, w: Wanted)
    requires DistinctNames(desired) && w in desired && PlanOne(h, w, remote) != []
    ensures var r := ApplyAll(h, remote, Plan(h, desired, remote));
      w.name in r && r[w.name] == Label(h.store(w.target.color), w.target.description)
  {
    var plan, c := Plan(h, desired, remote), PlanOne(h, w, remote)[0];
    PlanIsSound(h, desired, remote);
    assert c in PlanOne(h, w, remote) && c in plan;
    var i :| 0 <= i < |plan| && plan[i] == c;
    AppliedChange(h, remote, plan, i);
  }

  lemma NamedOnce(desired: seq<Wanted>, x: Wanted, y: Wanted)
    requires DistinctNames(desired) && x in desired && y in desired && x.name == y.name
    ensures x == y
  {
    var i :| 0 <= i < |desired| && desired[i] == x;
    var j :| 0 <= j < |desired| && desired[j] == y;
    assert i == j;
  }

  lemma UnplannedLabel(h: Host, desired: seq<Wanted>, remote: Remote, w: Wanted)
    requires DistinctNames(desired) && w in desired && PlanOne(h, w, remote) == []
    ensures var r := ApplyAll(h, remote, Plan(h, desired, remote));
      w.name in r && w.name in remote && r[w.name] == remote[w.name]
  {
    forall x | x in desired && x.name == w.name ensures PlanOne(h, x, remote) == [] {
      NamedOnce(desired, x, w);
    }
    PlanLeaves(h, desired, remote, w.name);
    AppliedLabel(h, remote, Plan(h, desired, remote), w.name);
  }

  /** After the plan is applied every desired label is there, and differs only over a "#". */
  lemma SyncedLabel(h: Host, desired: seq<Wanted>, remote: Remote, w: Wanted)
    requires Faithful(h) && DistinctNames(desired) && w in desired
    ensures var r := ApplyAll(h, remote, Plan(h, desired, remote));
      w.name in r && (Differs(h, r[w.name], w.target) <==> w.target.color != [] && w.target.color[0] == HASH)
  {
    if PlanOne(h, w, remote) != [] {
      PlannedLabel(h, desired, remote, w);
      WrittenLabelDiffers(h, w.target);
    } else {
      UnplannedLabel(h, desired, remote, w);
      if w.target.color != [] && w.target.color[0] == HASH {
        HashNeverEqual(h, remote[w.name].color, w.target.color);
      }
    }
  }

  /** Reconciliation converges in one round exactly when no desired colour starts with "#". */
  lemma SyncConverges(h: Host, desired: seq<Wanted>, remote: Remote)
    requires Faithful(h) && DistinctNames(desired)
    ensures Plan(h, desired, ApplyAll(h, remote, Plan(h, desired, remote))) == [] <==> NoHash(desired)
  {
    var r := ApplyAll(h, remote, Plan(h, desired, remote));
    PlanIsSound(h, desired, r);
    var again := Plan(h, desired, r);
    forall w | w in desired
      ensures PlanOne(h, w, r) == [] <==> w.target.color == [] || w.target.color[0] != HASH
    {
      SyncedLabel(h, desired, remote, w);
    }
    if again != [] {
      assert again[0] in again;
    }
    if w :| w in desired && PlanOne(h, w, r) != [] {
      assert PlanOne(h, w, r)[0] in again;
    }
  }

  predicate StartsWithHash(color: Text) { color != [] && color[0] == HASH }

  /** The label is what was wanted: its description, and its colour but for "#" and case. */
  predicate AsWanted(h: Host, held: Label, target: Label) {
    held.description == target.description && Folded(h, held.color) == Folded(h, target.color)
  }

  /** A label that is there is left alone exactly when it is as wanted and no "#" was asked for. */
  lemma LeftAloneWhenAsWanted(h: Host, w: Wanted, existing: Remote)
    requires Faithful(h)
    ensures PlanOne(h, w, existing) == [] <==>
      w.name in existing && AsWanted(h, existing[w.name], w.target) && !StartsWithHash(w.target.color)
  {
    var c := w.target.color;
    if w.name in existing {
      if StartsWithHash(c) {
        HashNeverEqual(h, existing[w.name].color, c);
      } else {
        FoldedWithoutHash(h, c);
      }
    }
  }

  /** After one round, and after every later one, the remote holds every desired label as wanted. */
  lemma SyncReachesDesired(h: Host, desired: seq<Wanted>, remote: Remote, n: nat)
    requires Faithful(h) && DistinctNames(desired) && n > 0
    ensures var r := Rounds(h, desired, remote, n);
      forall w :: w in desired ==> w.name in r && AsWanted(h, r[w.name], w.target)
  {
    var was, r := Rounds(h, desired, remote, n - 1), Rounds(h, desired, remote, n);
    forall w | w in desired ensures w.name in r && AsWanted(h, r[w.name], w.target) {
      LeftAloneWhenAsWanted(h, w, was);
      if PlanOne(h, w, was) != [] {
        PlannedLabel(h, desired, was, w);
        StoredColor(h, w.target.color);
      } else {
        UnplannedLabel(h, desired, was, w);
      }
    }
  }

  /** A host as GitHub is: it stores colours without the "#". */
  lemma PlainHostIsFaithful() returns (h: Host)
    ensures Faithful(h)
  {
    h := Host(c => [c], color => StripLeft(color, IsHash));
    forall color {:trigger h.store(color)} ensures Folded(h, h.store(color)) == Folded(h, color) {
      StripLeftIs(color, IsHash);
      StripLeftIs(StripLeft(color, IsHash), IsHash);
    }
  }

  /** The remote after `n` rounds of planning and applying. */
  function Rounds(h: Host, desired: seq<Wanted>, remote: Remote, n: nat): Remote {
    if n == 0 then remote
    else
      var r := Rounds(h, desired, remote, n - 1);
      ApplyAll(h, r, Plan(h, desired, r))
  }

  /** What one round settles no later round unsettles, and what it does not settle none does. */
  lemma LaterRoundsAreTheSame(h: Host, desired: seq<Wanted>, remote: Remote, n: nat)
    requires Faithful(h) && DistinctNames(desired) && n > 0
    ensures Plan(h, desired, Rounds(h, desired, remote, n)) == [] <==> NoHash(desired)
  {
    SyncConverges(h, desired, Rounds(h, desired, remote, n - 1));
  }

  /** A remote at rest stays as it is in every later round. */
  lemma {:induction false} RestIsFinal(h: Host, desired: seq<Wanted>, remote: Remote, n: nat)
    requires Faithful(h) && DistinctNames(desired) && NoHash(desired) && n > 0
    ensures Rounds(h, desired, remote, n) == Rounds(h, desired, remote, 1)
  {
    if n > 1 {
      RestIsFinal(h, desired, remote, n - 1);
      LaterRoundsAreTheSame(h, desired, remote, n - 1);
    }
  }

  /** One label whose colour is written with the "#": from any remote, no number of rounds brings the
      plan to rest. */
  lemma HashedColourNeverRests() returns (h: Host, desired: seq<Wanted>)
    ensures Faithful(h) && DistinctNames(desired) && |desired| == 1
    ensures forall remote, n :: Plan(h, desired, Rounds(h, desired, remote, n)) != []
  {
    h := PlainHostIsFaithful();
    var w := Wanted(T("bug"), Label(T("#d73a4a"), []));
    desired := [w];
    assert w in desired && w.target.color[0] == HASH;
    forall remote, n ensures Plan(h, desired, Rounds(h, desired, remote, n)) != [] {
      HashedIsPlanned(h, desired, Rounds(h, desired, remote, n), w);
    }
  }

  /** A colour with a "#" in front is planned on any remote. */
  lemma HashedIsPlanned(h: Host, desired: seq<Wanted>, remote: Remote, w: Wanted)
    requires Faithful(h) && DistinctNames(desired) && w in desired
    requires w.target.color != [] && w.target.color[0] == HASH
    ensures Plan(h, desired, remote) != []
  {
    if w.name in remote {
      HashNeverEqual(h, remote[w.name].color, w.target.color);
    }
    PlanIsSound(h, desired, remote);
    assert PlanOne(h, w, remote)[0] in Plan(h, desired, remote);
  }

  /** Labels outside the desired set stay as they are. */
  lemma OthersAreUntouched(h: Host, desired: seq<Wanted>, remote: Remote, name: Text)
    requires DistinctNames(desired) && forall w :: w in desired ==> w.name != name
    ensures var r := ApplyAll(h, remote, Plan(h, desired, remote));
      (name in r <==> name in remote) && (name in remote ==> r[name] == remote[name])
  {
    PlanLeaves(h, desired, remote, name);
    AppliedLabel(h, remote, Plan(h, desired, remote), name);
  }

  lemma SameBagTouches(a: seq<Change>, b: seq<Change>, name: Text)
    requires multiset(a) == multiset(b) && Touches(a, name)
    ensures exists i, j :: 0 <= i < |a| && 0 <= j < |b| && a[i] == b[j] && a[i].name == name
  {
    var i :| 0 <= i < |a| && a[i].name == name;
    assert a[i] in multiset(b);
    var j :| 0 <= j < |b| && b[j] == a[i];
  }

  /** Planned changes may be applied in any order. */
  lemma ChangesCommute(h: Host, remote: Remote, a: seq<Change>, b: seq<Change>)
    requires OncePerName(a) && OncePerName(b) && multiset(a) == multiset(b)
    ensures ApplyAll(h, remote, a) == ApplyAll(h, remote, b)
  {
    var ra, rb := ApplyAll(h, remote, a), ApplyAll(h, remote, b);
    forall n ensures (n in ra <==> n in rb) && (n in ra ==> ra[n] == rb[n]) {
      AppliedLabel(h, remote, a, n);
      AppliedLabel(h, remote, b, n);
      if Touches(a, n) {
        SameBagTouches(a, b, n);
        var i, j :| 0 <= i < |a| && 0 <= j < |b| && a[i] == b[j] && a[i].name == n;
        AppliedChange(h, remote, a, i);
        AppliedChange(h, remote, b, j);
      } else if Touches(b, n) {
        SameBagTouches(b, a, n);
      }
    }
  }
}
