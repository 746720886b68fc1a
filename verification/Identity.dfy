/** The allocator of overlay-only node ids. */
module Identity {
  import opened Hierarchy
  import opened Decimal
  import opened Overlay
  import opened Wrappers

  /** Ordinals are 32 bits wide. */
  const ORDINALS := 0x1_0000_0000

  function OrdinalId(n: nat): NodeId {
    NodeId("node:" + Padded(n, 4))
  }

  /** The mark one mint later: the counter wraps. */
  function NextOrdinal(n: nat): nat {
    (n + 1) % ORDINALS
  }

  /** The mark after `i` mints from `start`. */
  function MarkAfter(start: nat, i: nat): nat {
    if i == 0 then start else NextOrdinal(MarkAfter(start, i - 1))
  }

  /** The id the `i`-th mint from `start` hands out. */
  function Minted(start: nat, i: nat): NodeId {
    OrdinalId(MarkAfter(start, i))
  }

  class HierarchyIdentity {
    var nextNodeOrdinal: nat

    ghost predicate Valid()
      reads this
    {
      nextNodeOrdinal < ORDINALS
    }

    constructor ()
      ensures Valid() && nextNodeOrdinal == 0
    {
      nextNodeOrdinal := 0;
    }

    /** Hand out the next id and move the mark. */
    method Mint() returns (id: NodeId)
      requires Valid()
      modifies this
      ensures Valid() && id == OrdinalId(old(nextNodeOrdinal))
      ensures nextNodeOrdinal == NextOrdinal(old(nextNodeOrdinal))
    {
      id := OrdinalId(nextNodeOrdinal);
      nextNodeOrdinal := (nextNodeOrdinal + 1) % ORDINALS;
    }
  }

  lemma OrdinalIdInjective(n: nat, m: nat)
    requires OrdinalId(n) == OrdinalId(m)
    ensures n == m
  {
    var p := "node:";
    assert (p + Padded(n, 4))[5..] == Padded(n, 4);
    assert (p + Padded(m, 4))[5..] == Padded(m, 4);
    PaddedValue(n, 4);
    PaddedValue(m, 4);
  }

  lemma {:induction false} MarkClosed(start: nat, i: nat)
    requires start < ORDINALS
    ensures MarkAfter(start, i) == (start + i) % ORDINALS
  {
    if i > 0 {
      MarkClosed(start, i - 1);
      NextOfSum(start + i - 1);
    }
  }

  lemma NextOfSum(n: nat)
    ensures NextOrdinal(n % ORDINALS) == (n + 1) % ORDINALS
  {
  }

  /** A number is never handed out twice exactly as long as the counter has not
      come round: two mints agree only a multiple of 2^32 apart. */
  lemma NeverReused(start: nat, i: nat, j: nat)
    requires start < ORDINALS && i <= j
    ensures Minted(start, i) == Minted(start, j) <==> (j - i) % 0x1_0000_0000 == 0
  {
    hide OrdinalId, MarkAfter;
    MarkClosed(start, i);
    MarkClosed(start, j);
    if Minted(start, i) == Minted(start, j) {
      OrdinalIdInjective(MarkAfter(start, i), MarkAfter(start, j));
    }
    WrapDistance(start + i, start + j);
  }

  lemma WrapDistance(a: nat, b: nat)
    requires a <= b
    ensures a % ORDINALS == b % ORDINALS <==> (b - a) % ORDINALS == 0
  {
  }

  /** A run of mints is free of repetition exactly when it has at most 2^32 of them. */
  lemma RunDistinct(start: nat, count: nat)
    requires start < ORDINALS
    ensures (forall i, j :: 0 <= i < j < count ==> Minted(start, i) != Minted(start, j)) <==> count <= 0x1_0000_0000
  {
    forall i, j | 0 <= i < j < count && count <= ORDINALS
      ensures Minted(start, i) != Minted(start, j)
    {
      NeverReused(start, i, j);
    }
    if count > ORDINALS {
      NeverReused(start, 0, ORDINALS);
      assert Minted(start, 0) == Minted(start, ORDINALS);
    }
  }

  /** A minted id is never the id of a projected concept or term. */
  lemma MintedIsNew(start: nat, i: nat, s: string)
    ensures Minted(start, i) != ConceptId(s) && Minted(start, i) != VocabId(s)
  {
    assert Minted(start, i).raw[0] == 'n';
    assert ConceptId(s).raw[0] == 'c' && VocabId(s).raw[0] == 'v';
  }

  /** A minted node without a label of its own is shown by its ordinal. */
  lemma MintedLabel(n: nat, definition: Option<string>, source: DefSource)
    ensures Introduced(OverlayNode(OrdinalId(n), definition, source, None)).nodeLabel == "Node " + Padded(n, 4)
  {
    MintedSplit(n);
    hide Padded, SplitId;
  }

  /** Splitting a minted id gives its prefix and its padded ordinal back. */
  lemma MintedSplit(n: nat)
    ensures SplitId(OrdinalId(n).raw) == Some(("node", Padded(n, 4)))
  {
    assert "node" + ":" == "node:";
    SplitsAtColon("node", Padded(n, 4));
  }
}
