/** The page component's state: the active section, which starts as "hero",
    and the array of section elements that the ref callbacks fill in. The
    array is a JavaScript array, so storing at an index past its end leaves
    holes, and the scroll handler's walk over it skips them. */
module HomePage {
  import opened ScrollSync

  /** `n` holes, the gap a store past the end of a JavaScript array leaves. */
  function Holes(n: nat): seq<Option<Section>>
  {
    seq(n, _ => None)
  }

  /** The ref array after storing `el` at index `i`; a callback called with
      no element (on unmount) stores nothing. */
  function Assign(refs: seq<Option<Section>>, i: nat, el: Option<Section>): (r: seq<Option<Section>>)
    ensures el.None? ==> r == refs
    ensures el.Some? ==> i < |r| && r[i] == el && |r| == if i < |refs| then |refs| else i + 1
    ensures forall k :: 0 <= k < |refs| && k != i ==> r[k] == refs[k]
    ensures forall k :: |refs| <= k < |r| && k != i ==> r[k].None?
  {
    if el.None? then refs
    else if i < |refs| then refs[i := el]
    else refs + Holes(i - |refs|) + [el]
  }

  /** The elements present in the ref array, in index order, as its forEach
      visits them. */
  function Mounted(refs: seq<Option<Section>>): (r: seq<Section>)
    ensures |r| <= |refs|
    ensures forall k :: 0 <= k < |r| ==> Some(r[k]) in refs
    decreases |refs|
  {
    if refs == [] then []
    else
      var last := refs[|refs| - 1];
      Mounted(refs[..|refs| - 1]) + if last.Some? then [last.value] else []
  }

  /** The walk over the concatenation of two ref arrays is the walk over the
      first followed by the walk over the second. */
  lemma {:induction false} MountedConcat(a: seq<Option<Section>>, b: seq<Option<Section>>)
    ensures Mounted(a + b) == Mounted(a) + Mounted(b)
    decreases |b|
  {
    if b == [] {
      assert a + b == a;
    } else {
      var init := b[..|b| - 1];
      MountedConcat(a, init);
      assert (a + b)[..|a + b| - 1] == a + init;
    }
  }

  /** The walk over a one-slot array: a hole is skipped, an element visited.
      With `MountedConcat` this fixes the walk as every present element, in
      index order. */
  lemma MountedUnit(x: Option<Section>)
    ensures Mounted([]) == []
    ensures Mounted([x]) == if x.Some? then [x.value] else []
  {
  }

  /** A run of holes is walked as nothing. */
  lemma {:induction false} MountedHoles(n: nat)
    ensures Mounted(Holes(n)) == []
    decreases n
  {
    if n > 0 {
      MountedHoles(n - 1);
      assert Holes(n)[..n - 1] == Holes(n - 1);
    }
  }

  /** Holes are skipped: they leave the walk unchanged. */
  lemma MountedSkipsHoles(a: seq<Option<Section>>, n: nat, b: seq<Option<Section>>)
    ensures Mounted(a + Holes(n) + b) == Mounted(a) + Mounted(b)
  {
    MountedConcat(a + Holes(n), b);
    MountedConcat(a, Holes(n));
    MountedHoles(n);
    assert Mounted(a) + [] == Mounted(a);
  }

  /** The ref array after the callbacks for `sections[0]`, `sections[1]`, ...
      have run in that order, each storing its element at its own index: no
      holes, and every section at its own index. */
  function MountAll(sections: seq<Section>): (r: seq<Option<Section>>)
    ensures |r| == |sections|
    ensures forall k :: 0 <= k < |r| ==> r[k] == Some(sections[k])
    decreases |sections|
  {
    if sections == [] then []
    else Assign(MountAll(sections[..|sections| - 1]), |sections| - 1, Some(sections[|sections| - 1]))
  }

  /** Mounting the sections in document order leaves no holes: the handler
      walks exactly the sections, in document order. */
  lemma {:induction false} MountInOrder(sections: seq<Section>)
    ensures |MountAll(sections)| == |sections|
    ensures Mounted(MountAll(sections)) == sections
    decreases |sections|
  {
    if sections != [] {
      var n := |sections| - 1;
      var prefix := sections[..n];
      MountInOrder(prefix);
      var before := MountAll(prefix);
      assert Holes(n - |before|) == [];
      var after := before + [Some(sections[n])];
      assert MountAll(sections) == after;
      assert after[..|after| - 1] == before;
      assert Mounted(after) == prefix + [sections[n]];
      assert prefix + [sections[n]] == sections;
    }
  }

  /** On the page, the five sections mount at indices 0 to 4 in document
      order, so the handler walks hero, about, services, products, contact;
      when they are stacked, a threshold on the top edge of a section (its
      shared boundary with the one above) makes that, the later, section
      active. */
  lemma PageWalkOrder(sections: seq<Section>, active: string)
    requires |sections| == |SectionIds|
    requires forall k :: 0 <= k < |SectionIds| ==> sections[k].id == SectionIds[k]
    ensures |Mounted(MountAll(sections))| == 5
    ensures forall k :: 0 <= k < 5 ==> Mounted(MountAll(sections))[k].id == SectionIds[k]
    ensures Stacked(sections) ==>
              forall k :: 0 <= k < 5 ==>
                NextActive(Mounted(MountAll(sections)), sections[k].top as real, active) == SectionIds[k]
  {
    MountInOrder(sections);
    if Stacked(sections) {
      forall k | 0 <= k < 5
        ensures NextActive(sections, sections[k].top as real, active) == SectionIds[k]
      {
        StackedTopEdgeActivates(sections, k, active);
      }
    }
  }

  /** The page component's mutable state. */
  class Home {
    var activeSection: string
    var refs: seq<Option<Section>>

    /** The first render: "hero" is active and no section is mounted yet. */
    constructor ()
      ensures activeSection == InitialSection && refs == []
    {
      activeSection := InitialSection;
      refs := [];
    }

    /** The ref callback of the section rendered at index `i`. */
    method SetRef(i: nat, el: Option<Section>)
      modifies this`refs
      ensures refs == Assign(old(refs), i, el)
    {
      if el.Some? {
        if i < |refs| {
          refs := refs[i := el];
        } else {
          refs := refs + Holes(i - |refs|) + [el];
        }
      }
    }

    /** One scroll event: the handler runs over the mounted sections and the
        ref array is left as it was. */
    method OnScroll(scrollY: real, innerHeight: int)
      modifies this`activeSection
      ensures activeSection == NextActive(Mounted(refs), Threshold(scrollY, innerHeight), old(activeSection))
      ensures activeSection == old(activeSection) || HasId(Mounted(refs), activeSection)
    {
      activeSection := HandleScroll(Mounted(refs), scrollY, innerHeight, activeSection);
    }
  }
}
