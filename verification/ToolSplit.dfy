/** Spreading tools over upstreams, and the tool names they are listed under. */
module ToolSplit {
  import opened Texts
  import opened JsonValues

  function UpstreamCount(nTools: int, requested: int): int {
    var m := if requested < nTools then requested else nTools;
    if m < 1 then 1 else m
  }

  /** As many upstreams as asked for, but no more than there are tools, and at least one. */
  lemma UpstreamCountMeans(nTools: int, requested: int)
    ensures var k := UpstreamCount(nTools, requested);
      && (1 <= requested <= nTools ==> k == requested)
      && (1 <= nTools <= requested ==> k == nTools)
      && (nTools < 1 || requested < 1 ==> k == 1)
  {
  }

  /** Where slice `i` of `k` starts, in closed form. */
  function SliceStart(nTools: int, k: int, i: int): int
    requires k > 0
  {
    i * (nTools / k) + (if i < nTools % k then i else nTools % k)
  }

  function SliceCount(nTools: int, k: int, i: int): int
    requires k > 0
  {
    nTools / k + (if i < nTools % k then 1 else 0)
  }

  method SplitTools(nTools: int, requested: int) returns (slices: seq<(int, int)>)
    ensures var k := UpstreamCount(nTools, requested);
      |slices| == k && forall i :: 0 <= i < k ==> slices[i] == (SliceStart(nTools, k, i), SliceCount(nTools, k, i))
  {
    var k := UpstreamCount(nTools, requested);
    var base, remainder := nTools / k, nTools % k;
    slices := [];
    var start := 0;
    for index := 0 to k
      invariant |slices| == index && start == SliceStart(nTools, k, index)
      invariant forall i :: 0 <= i < index ==> slices[i] == (SliceStart(nTools, k, i), SliceCount(nTools, k, i))
    {
      var count := base + (if index < remainder then 1 else 0);
      slices := slices + [(start, count)];
      start := start + count;
      NextStart(nTools, k, index);
    }
  }

  lemma NextStart(nTools: int, k: int, i: int)
    requires k > 0 && i >= 0
    ensures SliceStart(nTools, k, i + 1) == SliceStart(nTools, k, i) + SliceCount(nTools, k, i)
  {
    var base := nTools / k;
    assert (i + 1) * base == i * base + base;
  }

  lemma Ends(nTools: int, k: int)
    requires k > 0
    ensures SliceStart(nTools, k, 0) == 0 && SliceStart(nTools, k, k) == nTools
  {
    assert nTools == k * (nTools / k) + nTools % k;
  }

  lemma {:induction false} StartsIncrease(nTools: nat, k: int, i: int, j: int)
    requires k > 0 && 0 <= i <= j
    ensures SliceStart(nTools, k, i) <= SliceStart(nTools, k, j)
    decreases j
  {
    if i < j {
      StartsIncrease(nTools, k, i, j - 1);
      NextStart(nTools, k, j - 1);
      assert nTools / k >= 0;
    }
  }

  /** Sizes never grow along the slices, differ by at most one, and are positive when there is a tool. */
  lemma SlicesAreBalanced(nTools: nat, requested: int, i: int, j: int)
    requires 0 <= i <= j < UpstreamCount(nTools, requested)
    ensures var k := UpstreamCount(nTools, requested);
      && SliceCount(nTools, k, j) <= SliceCount(nTools, k, i) <= SliceCount(nTools, k, j) + 1
      && (nTools >= 1 ==> SliceCount(nTools, k, j) >= 1)
  {
    var k := UpstreamCount(nTools, requested);
    assert nTools >= 1 ==> nTools / k >= 1;
  }

  /** Every tool index below `nTools` lies in exactly one slice. */
  lemma {:induction false} SliceOf(nTools: nat, k: int, t: nat, n: nat) returns (i: nat)
    requires k > 0 && n <= k && t < SliceStart(nTools, k, n)
    ensures i < n && SliceStart(nTools, k, i) <= t < SliceStart(nTools, k, i) + SliceCount(nTools, k, i)
    decreases n
  {
    Ends(nTools, k);
    NextStart(nTools, k, n - 1);
    if t < SliceStart(nTools, k, n - 1) {
      i := SliceOf(nTools, k, t, n - 1);
    } else {
      i := n - 1;
    }
  }

  predicate InSlice(nTools: nat, k: int, i: int, t: int)
    requires k > 0
  {
    SliceStart(nTools, k, i) <= t < SliceStart(nTools, k, i) + SliceCount(nTools, k, i)
  }

  lemma SlicesPartition(nTools: nat, requested: int, t: nat)
    ensures var k := UpstreamCount(nTools, requested);
      && (t < nTools <==> exists i :: 0 <= i < k && InSlice(nTools, k, i, t))
      && (forall i, j :: 0 <= i < j < k ==> !(InSlice(nTools, k, i, t) && InSlice(nTools, k, j, t)))
  {
    var k := UpstreamCount(nTools, requested);
    Ends(nTools, k);
    if t < nTools {
      var i := SliceOf(nTools, k, t, k);
      assert InSlice(nTools, k, i, t);
    }
    forall i | 0 <= i < k && InSlice(nTools, k, i, t) ensures t < nTools {
      NextStart(nTools, k, i);
      StartsIncrease(nTools, k, i + 1, k);
    }
    forall i, j | 0 <= i < j < k ensures !(InSlice(nTools, k, i, t) && InSlice(nTools, k, j, t)) {
      NextStart(nTools, k, i);
      StartsIncrease(nTools, k, i + 1, j);
    }
  }

  // ---- the listings ----

  /** `f"{index:04d}"`. */
  function Padded4(index: nat): (t: Text)
    ensures AllDigits(t)
  {
    var digits := NatText(index);
    Zeros(if |digits| < 4 then 4 - |digits| else 0) + digits
  }

  function Zeros(n: nat): (t: Text)
    ensures |t| == n && forall i :: 0 <= i < n ==> t[i] == 0x30
  {
    seq(n, _ => 0x30)
  }

  function ToolName(index: nat): Text { T("tool_") + Padded4(index) }

  datatype Tool = Tool(name: Text, description: Text, inputSchema: Json)

  /** `describe` and `schema` build the other two fields from the index. */
  function BuildTools(describe: nat -> Text, schema: nat -> Json, start: nat, count: nat): (r: seq<Tool>)
    ensures |r| == count
  {
    seq(count, i requires 0 <= i < count => Tool(ToolName(start + i), describe(start + i), schema(start + i)))
  }

  function Listings(describe: nat -> Text, schema: nat -> Json, nTools: nat, k: int, n: nat): seq<Tool>
    requires k > 0 && n <= k
  {
    if n == 0 then []
    else
      var start, count := SliceStart(nTools, k, n - 1), SliceCount(nTools, k, n - 1);
      StartsIncrease(nTools, k, 0, n - 1);
      Ends(nTools, k);
      assert nTools / k >= 0;
      Listings(describe, schema, nTools, k, n - 1) + BuildTools(describe, schema, start, count)
  }

  /** The upstreams' listings, one after the other, are the listing of all tools. */
  lemma {:induction false} ListingsConcatenate(describe: nat -> Text, schema: nat -> Json, nTools: nat, k: int, n: nat)
    requires k > 0 && n <= k
    ensures SliceStart(nTools, k, n) >= 0
    ensures Listings(describe, schema, nTools, k, n) == BuildTools(describe, schema, 0, SliceStart(nTools, k, n))
    ensures n == k ==> SliceStart(nTools, k, n) == nTools
  {
    Ends(nTools, k);
    StartsIncrease(nTools, k, 0, n);
    if n > 0 {
      ListingsConcatenate(describe, schema, nTools, k, n - 1);
      NextStart(nTools, k, n - 1);
    }
  }

  lemma {:induction false} LeadingZeros(t: Text, n: nat)
    requires AllDigits(t)
    ensures AllDigits(Zeros(n) + t) && DigitsValue(Zeros(n) + t) == DigitsValue(t)
  {
    var z := Zeros(n) + t;
    forall i | 0 <= i < |z| ensures IsDigit(z[i]) {
      if i >= n { assert IsDigit(t[i - n]); }
    }
    if t != [] {
      LeadingZeros(t[..|t| - 1], n);
      assert z[..|z| - 1] == Zeros(n) + t[..|t| - 1];
    } else {
      AllZeros(n);
      assert z == Zeros(n);
    }
  }

  lemma {:induction false} AllZeros(n: nat)
    ensures AllDigits(Zeros(n)) && DigitsValue(Zeros(n)) == 0
  {
    if n > 0 {
      AllZeros(n - 1);
      assert Zeros(n)[..n - 1] == Zeros(n - 1);
    }
  }

  /** Tool names are distinct for all indices, padded or not. */
  lemma ToolNamesAreDistinct(a: nat, b: nat)
    ensures ToolName(a) == ToolName(b) <==> a == b
  {
    if ToolName(a) == ToolName(b) {
      assert ToolName(a)[5..] == Padded4(a) && ToolName(b)[5..] == Padded4(b);
      NatTextValue(a);
      NatTextValue(b);
      LeadingZeros(NatText(a), if |NatText(a)| < 4 then 4 - |NatText(a)| else 0);
      LeadingZeros(NatText(b), if |NatText(b)| < 4 then 4 - |NatText(b)| else 0);
    }
  }

  /** A tool's name is "tool_" and its index in at least four digits, without a leading zero in more. */
  lemma ToolNameMeans(index: nat)
    ensures var name := ToolName(index);
      && T("tool_") <= name && AllDigits(name[5..]) && DigitsValue(name[5..]) == index
      && |name[5..]| >= 4 && (|name[5..]| > 4 ==> name[5] != 0x30)
  {
    var digits := NatText(index);
    var zeros := if |digits| < 4 then 4 - |digits| else 0;
    assert ToolName(index)[5..] == Padded4(index) == Zeros(zeros) + digits;
    NatTextValue(index);
    LeadingZeros(digits, zeros);
  }
}
