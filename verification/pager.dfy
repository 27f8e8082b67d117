/** The section tracker and pager: a fixed ordered list of section ids, an
    active index kept in step with the viewport by a visibility observer, and
    next / previous / direct navigation that scrolls to a section and rewrites
    the location fragment. Navigation never writes the active index; only the
    observer does. */
module SectionPager {

  /** The pager's sections, in navigation order. */
  const Sections: seq<string> := ["home", "value", "services", "cases", "process", "skills",
    "experience", "certs", "projects", "packages", "completion", "education", "tools", "langs",
    "viz", "contact"]

  /** The ids of the header's navigation links, in display order. */
  const NavItemIds: seq<string> := ["value", "services", "cases", "viz", "projects", "contact"]

  predicate Distinct(s: seq<string>) {
    forall i, j :: 0 <= i < j < |s| ==> s[i] != s[j]
  }

  lemma SectionsShape()
    ensures |Sections| == 16 && Distinct(Sections)
    ensures forall id :: id in NavItemIds ==> id in Sections
  {
  }

  /** `s.indexOf(x)`: the first position of `x` in `s`, or -1. */
  function IndexOf(s: seq<string>, x: string): (r: int)
    ensures -1 <= r < |s|
    ensures r == -1 <==> x !in s
    ensures r >= 0 ==> s[r] == x && x !in s[..r]
  {
    if s == [] then -1
    else if s[0] == x then 0
    else
      var k := IndexOf(s[1..], x);
      assert k >= 0 ==> s[..k + 1] == [s[0]] + s[1..][..k];
      if k == -1 then -1 else k + 1
  }

  /** In a list of distinct ids the position of an element is its index. */
  lemma IndexOfDistinct(s: seq<string>, i: int)
    requires Distinct(s) && 0 <= i < |s|
    ensures IndexOf(s, s[i]) == i
  {
  }

  // ---- Next / previous targets ----

  /** `Math.min(active + 1, sections.length - 1)`. */
  function NextIndex(n: nat, active: int): (r: int)
    requires 0 <= active < n
    ensures 0 <= r < n
    ensures active <= r <= active + 1
    ensures r == active <==> active == n - 1
  {
    if active + 1 < n - 1 then active + 1 else n - 1
  }

  /** `Math.max(active - 1, 0)`. */
  function PrevIndex(n: nat, active: int): (r: int)
    requires 0 <= active < n
    ensures 0 <= r < n
    ensures active - 1 <= r <= active
    ensures r == active <==> active == 0
  {
    if active - 1 > 0 then active - 1 else 0
  }

  /** The index reached after `k` next-steps from `i`, when each step's
      target is then reported by the observer and becomes active. */
  function NextTimes(n: nat, i: int, k: nat): (r: int)
    requires 0 <= i < n
    ensures 0 <= r < n
  {
    if k == 0 then i else NextIndex(n, NextTimes(n, i, k - 1))
  }

  /** The index reached after `k` previous-steps from `i`, likewise. */
  function PrevTimes(n: nat, i: int, k: nat): (r: int)
    requires 0 <= i < n
    ensures 0 <= r < n
  {
    if k == 0 then i else PrevIndex(n, PrevTimes(n, i, k - 1))
  }

  /** Clamped, not wrapping: `k` next-steps from `i` reach `min(i + k, n - 1)`,
      so from the last section every further step stays there. */
  lemma {:induction false} NextTimesClamps(n: nat, i: int, k: nat)
    requires 0 <= i < n
    ensures NextTimes(n, i, k) == if i + k < n - 1 then i + k else n - 1
  {
    if k > 0 {
      NextTimesClamps(n, i, k - 1);
    }
  }

  /** `k` previous-steps from `i` reach `max(i - k, 0)`, so from section 0
      every further step stays there. */
  lemma {:induction false} PrevTimesClamps(n: nat, i: int, k: nat)
    requires 0 <= i < n
    ensures PrevTimes(n, i, k) == if i - k > 0 then i - k else 0
  {
    if k > 0 {
      PrevTimesClamps(n, i, k - 1);
    }
  }

  /** Next and previous undo each other away from the ends. */
  lemma NextPrevInverse(n: nat, i: int)
    requires 0 <= i < n
    ensures i < n - 1 ==> PrevIndex(n, NextIndex(n, i)) == i
    ensures i > 0 ==> NextIndex(n, PrevIndex(n, i)) == i
  {
  }

  // ---- Observer batches ----

  /** One entry of a visibility-change batch: the target region's id and
      whether it now intersects the viewport band. */
  datatype Entry = Entry(targetId: string, isIntersecting: bool)

  /** An entry moves the active index when it intersects and names a section. */
  predicate Qualifies(sections: seq<string>, e: Entry) {
    e.isIntersecting && e.targetId in sections
  }

  /** The effect of one entry on the active index. */
  function Step(sections: seq<string>, active: int, e: Entry): (r: int)
    ensures Qualifies(sections, e) ==> r == IndexOf(sections, e.targetId) && sections[r] == e.targetId
    ensures !Qualifies(sections, e) ==> r == active
  {
    if e.isIntersecting then
      var idx := IndexOf(sections, e.targetId);
      if idx != -1 then idx else active
    else active
  }

  /** The active index after the observer callback has walked `entries` in
      delivery order, starting from `active`. */
  function BatchActive(sections: seq<string>, active: int, entries: seq<Entry>): (r: int)
    ensures 0 <= active < |sections| ==> 0 <= r < |sections|
    decreases |entries|
  {
    if entries == [] then active
    else Step(sections, BatchActive(sections, active, entries[..|entries| - 1]), entries[|entries| - 1])
  }

  /** A batch with no qualifying entry changes nothing. */
  lemma {:induction false} BatchNoQualifying(sections: seq<string>, active: int, entries: seq<Entry>)
    requires forall j :: 0 <= j < |entries| ==> !Qualifies(sections, entries[j])
    ensures BatchActive(sections, active, entries) == active
    decreases |entries|
  {
    if entries != [] {
      BatchNoQualifying(sections, active, entries[..|entries| - 1]);
    }
  }

  /** Last qualifying entry wins: the active index becomes the position of
      the id of the last entry that intersects and names a section. */
  lemma {:induction false} BatchLastWins(sections: seq<string>, active: int, entries: seq<Entry>, k: int)
    requires 0 <= k < |entries| && Qualifies(sections, entries[k])
    requires forall j :: k < j < |entries| ==> !Qualifies(sections, entries[j])
    ensures BatchActive(sections, active, entries) == IndexOf(sections, entries[k].targetId)
    ensures sections[BatchActive(sections, active, entries)] == entries[k].targetId
    decreases |entries|
  {
    if k < |entries| - 1 {
      BatchLastWins(sections, active, entries[..|entries| - 1], k);
    }
  }

  /** Conversely, a changed active index names an entry of the batch that
      qualifies, and no later entry qualifies. */
  lemma {:induction false} BatchChangedHasWitness(sections: seq<string>, active: int, entries: seq<Entry>)
    requires BatchActive(sections, active, entries) != active
    ensures exists k :: 0 <= k < |entries| && Qualifies(sections, entries[k]) &&
              BatchActive(sections, active, entries) == IndexOf(sections, entries[k].targetId) &&
              forall j :: k < j < |entries| ==> !Qualifies(sections, entries[j])
    decreases |entries|
  {
    var n := |entries|;
    var last := entries[n - 1];
    var prefix := entries[..n - 1];
    if Qualifies(sections, last) {
      assert Qualifies(sections, entries[n - 1]);
    } else {
      BatchChangedHasWitness(sections, active, prefix);
      var k :| 0 <= k < |prefix| && Qualifies(sections, prefix[k]) &&
               BatchActive(sections, active, prefix) == IndexOf(sections, prefix[k].targetId) &&
               forall j :: k < j < |prefix| ==> !Qualifies(sections, prefix[j]);
      assert entries[k] == prefix[k];
      assert forall j :: k < j < n ==> !Qualifies(sections, entries[j]) by {
        forall j | k < j < n ensures !Qualifies(sections, entries[j]) {
          if j < n - 1 { assert entries[j] == prefix[j]; }
        }
      }
    }
  }

  /** Two successive deliveries act like one delivery of both batches. */
  lemma {:induction false} BatchConcat(sections: seq<string>, active: int, xs: seq<Entry>, ys: seq<Entry>)
    ensures BatchActive(sections, active, xs + ys) == BatchActive(sections, BatchActive(sections, active, xs), ys)
    decreases |ys|
  {
    if ys == [] {
      assert xs + ys == xs;
    } else {
      var zs := xs + ys;
      assert zs[..|zs| - 1] == xs + ys[..|ys| - 1];
      assert zs[|zs| - 1] == ys[|ys| - 1];
      BatchConcat(sections, active, xs, ys[..|ys| - 1]);
    }
  }

  /** "home" then "value" intersecting in one batch leaves "value" active. */
  lemma HomeThenValue(active: int)
    ensures BatchActive(Sections, active, [Entry("home", true), Entry("value", true)]) == 1
  {
    BatchLastWins(Sections, active, [Entry("home", true), Entry("value", true)], 1);
    IndexOfDistinctValue();
  }

  lemma IndexOfDistinctValue()
    ensures IndexOf(Sections, "value") == 1
  {
    SectionsShape();
    IndexOfDistinct(Sections, 1);
  }

  // ---- Derived highlights ----

  /** `aria-current` of the header link for `itemId`: the link is current
      when its id is the active section's. With distinct ids this is the same
      as the id's position in the list being the active index. */
  function AriaCurrent(sections: seq<string>, active: int, itemId: string): (r: bool)
    requires 0 <= active < |sections|
    ensures Distinct(sections) ==> (r <==> IndexOf(sections, itemId) == active)
  {
    if Distinct(sections) then IndexOfDistinct(sections, active); sections[active] == itemId
    else sections[active] == itemId
  }

  /** Whether the pager dot at position `i` of `n` is lit: only a rendered
      dot can be lit, and the active section's dot always is. */
  function DotLit(n: nat, active: int, i: int): (r: bool)
    requires 0 <= active < n
    ensures r ==> 0 <= i < n
    ensures i == active ==> r
  {
    i == active
  }

  /** The two markers agree: a section's header link is current exactly when
      its pager dot is lit, and exactly one dot is lit. */
  lemma HighlightsAgree(sections: seq<string>, active: int)
    requires Distinct(sections) && 0 <= active < |sections|
    ensures forall i :: 0 <= i < |sections| ==>
              (AriaCurrent(sections, active, sections[i]) <==> DotLit(|sections|, active, i))
    ensures DotLit(|sections|, active, active)
    ensures forall i, j :: DotLit(|sections|, active, i) && DotLit(|sections|, active, j) ==> i == j
  {
  }

  /** At most one header link is current at a time. */
  lemma AtMostOneNavCurrent(active: int)
    requires 0 <= active < |Sections|
    ensures forall i, j :: 0 <= i < j < |NavItemIds| ==>
              !(AriaCurrent(Sections, active, NavItemIds[i]) && AriaCurrent(Sections, active, NavItemIds[j]))
  {
    assert Distinct(NavItemIds);
  }

  // ---- Keys ----

  datatype KeyAction = GoNextAction | GoPrevAction | NoAction

  /** The keydown listener's mapping. */
  function ActionOfKey(key: string): (r: KeyAction)
    ensures r == GoNextAction <==> key == "ArrowRight"
    ensures r == GoPrevAction <==> key == "ArrowLeft"
    ensures r == NoAction <==> key != "ArrowRight" && key != "ArrowLeft"
  {
    if key == "ArrowRight" then GoNextAction
    else if key == "ArrowLeft" then GoPrevAction
    else NoAction
  }

  /** The page's tracker state. `regions` stands for the ids that have a
      rendered region in the document; `fragment` is the location fragment. */
  class Pager {
    const sections: seq<string>
    const regions: set<string>
    const hasHistory: bool
    var active: int
    var fragment: string

    ghost predicate Valid()
      reads this
    {
      |sections| > 0 && Distinct(sections) && 0 <= active < |sections|
    }

    /** The state at mount: the fixed section list and section 0 active. */
    constructor (regions: set<string>, hasHistory: bool, fragment: string)
      ensures Valid()
      ensures sections == Sections && active == 0
      ensures this.regions == regions && this.hasHistory == hasHistory && this.fragment == fragment
    {
      SectionsShape();
      this.sections := Sections;
      this.regions := regions;
      this.hasHistory := hasHistory;
      this.active := 0;
      this.fragment := fragment;
    }

    /** The fragment after navigating to `id` from fragment `f`. */
    function FragmentAfter(f: string, id: string): string
      reads this
    {
      if id in regions && hasHistory then "#" + id else f
    }

    /** The observer callback: walks the batch in order; every intersecting
        entry that names a section makes that section active. */
    method OnIntersect(entries: seq<Entry>)
      requires Valid()
      modifies this`active
      ensures Valid()
      ensures active == BatchActive(sections, old(active), entries)
    {
      ghost var start := active;
      for i := 0 to |entries|
        invariant 0 <= active < |sections|
        invariant active == BatchActive(sections, start, entries[..i])
      {
        assert entries[..i + 1][..i] == entries[..i];
        var e := entries[i];
        if e.isIntersecting {
          var idx := IndexOf(sections, e.targetId);
          if idx != -1 {
            active := idx;
          }
        }
      }
      assert entries[..|entries|] == entries;
    }

    /** `scrollToId`: nothing when no region has this id; otherwise scroll
        there and replace the fragment with `#id`. The active index is left
        to the observer. */
    method ScrollToId(id: string)
      modifies this`fragment
      ensures active == old(active)
      ensures id !in regions ==> fragment == old(fragment)
      ensures id in regions && hasHistory ==> fragment == "#" + id
      ensures fragment == FragmentAfter(old(fragment), id)
    {
      if id in regions {
        if hasHistory {
          fragment := "#" + id;
        }
      }
    }

    /** `goNext`: navigate to the section after the active one, clamped. */
    method GoNext()
      requires Valid()
      modifies this`fragment
      ensures Valid() && active == old(active)
      ensures fragment == FragmentAfter(old(fragment), sections[NextIndex(|sections|, active)])
    {
      ScrollToId(sections[NextIndex(|sections|, active)]);
    }

    /** `goPrev`: navigate to the section before the active one, clamped. */
    method GoPrev()
      requires Valid()
      modifies this`fragment
      ensures Valid() && active == old(active)
      ensures fragment == FragmentAfter(old(fragment), sections[PrevIndex(|sections|, active)])
    {
      ScrollToId(sections[PrevIndex(|sections|, active)]);
    }

    /** The keydown listener: ArrowRight goes next, ArrowLeft goes back,
        every other key does nothing. */
    method OnKey(key: string)
      requires Valid()
      modifies this`fragment
      ensures Valid() && active == old(active)
      ensures key == "ArrowRight" ==> fragment == FragmentAfter(old(fragment), sections[NextIndex(|sections|, active)])
      ensures key == "ArrowLeft" ==> fragment == FragmentAfter(old(fragment), sections[PrevIndex(|sections|, active)])
      ensures ActionOfKey(key) == NoAction ==> fragment == old(fragment)
    {
      if key == "ArrowRight" {
        GoNext();
      }
      if key == "ArrowLeft" {
        GoPrev();
      }
    }
  }

  /** Pressing ArrowRight at the last section keeps targeting it: the active
      index and the fragment it would produce do not move. */
  method NextAtLastStays(p: Pager)
    requires p.Valid() && p.active == |p.sections| - 1
    modifies p`fragment
    ensures p.active == |p.sections| - 1
    ensures p.fragment == p.FragmentAfter(old(p.fragment), p.sections[|p.sections| - 1])
  {
    p.OnKey("ArrowRight");
    p.OnKey("ArrowRight");
  }
}
