/** The page inventory that the relationship phases read: what local decoding found on each
    page, with freelist pages shown as allocation pages whose stale contents are withheld. */
module Inventory {
  import opened Wrappers

  datatype BtreeKind = TableLeaf | TableInterior | IndexLeaf | IndexInterior {
    predicate Interior() {
      TableInterior? || IndexInterior?
    }
  }

  datatype AllocationRole = TrunkPage | LeafPage | DisputedPage

  datatype CellInfo = CellInfo(
    overlapping: bool,
    leftChild: Option<nat>,
    overflowPage: Option<nat>,
    payloadSize: Option<nat>,
    localLength: Option<nat>
  ) {
    /** A cell with an overflow pointer spills: what it stores locally falls short of its
        payload. Only an overlap with another allocation withdraws the two lengths. */
    predicate Spilled() {
      overflowPage.Some? && !overlapping ==>
        payloadSize.Some? && localLength.Some? && payloadSize.value > localLength.value
    }
  }

  /** Page `n` of the file is element `n - 1` of the inventory. A page is `reserved` when the
      geometry makes it a pointer map or the lock-byte page. */
  datatype PageInfo = PageInfo(
    kind: Option<BtreeKind>,
    reserved: bool,
    allocation: Option<AllocationRole>,
    readFailed: bool,
    cells: seq<CellInfo>,
    rightmost: Option<nat>
  ) {
    /** What local decoding guarantees: only a page with a B-tree header has cells or a
        rightmost child, and its cells are spilled as their pointers say. */
    predicate Decoded() {
      && (kind.None? ==> cells == [] && rightmost.None?)
      && (forall k :: 0 <= k < |cells| ==> cells[k].Spilled())
    }
  }

  ghost predicate WellFormed(pages: seq<PageInfo>) {
    forall i :: 0 <= i < |pages| ==> pages[i].Decoded()
  }

  predicate Listed(pages: seq<PageInfo>, number: nat) {
    1 <= number <= |pages|
  }

  predicate HasKind(pages: seq<PageInfo>, number: nat) {
    Listed(pages, number) && pages[number - 1].kind.Some?
  }

  /** The inventory as the relationship phases see it: an allocation page loses its kind,
      its cells and its diagnostics. */
  function ApplyOverrides(pages: seq<PageInfo>, overrides: map<nat, AllocationRole>): (r: seq<PageInfo>)
    ensures |r| == |pages|
    ensures WellFormed(pages) ==> WellFormed(r)
  {
    seq(|pages|, i requires 0 <= i < |pages| =>
      if i + 1 in overrides
      then PageInfo(None, pages[i].reserved, Some(overrides[i + 1]), false, [], None)
      else pages[i])
  }
}
