/** Work divisions and their validity against an accelerator's limits. */
module WorkDiv {
  import opened Extents
  import opened Acc

  /** `WorkDivMembers<TDim, TIdx>`: blocks per grid, threads per block, elements per thread. */
  datatype WorkDivMembers = WorkDivMembers(
    gridBlockExtent: Vec,
    blockThreadExtent: Vec,
    threadElemExtent: Vec)

  /** All three extents have rank `dim`. */
  predicate HasDim(wd: WorkDivMembers, dim: nat)
  {
    |wd.gridBlockExtent| == dim && |wd.blockThreadExtent| == dim && |wd.threadElemExtent| == dim
  }

  predicate Positive(v: Vec)
  {
    forall j :: 0 <= j < |v| ==> v[j] >= 1
  }

  /**
   * `isValidWorkDiv`: every extent is positive, no axis exceeds the
   * accelerator's per-axis maximum and no extent's element count exceeds the
   * corresponding count maximum.
   */
  predicate IsValidWorkDiv(props: AccDevProps, wd: WorkDivMembers)
  {
    && Positive(wd.gridBlockExtent) && Positive(wd.blockThreadExtent) && Positive(wd.threadElemExtent)
    && LeEach(wd.gridBlockExtent, props.gridBlockExtentMax)
    && LeEach(wd.blockThreadExtent, props.blockThreadExtentMax)
    && LeEach(wd.threadElemExtent, props.threadElemExtentMax)
    && Product(wd.gridBlockExtent) <= props.gridBlockCountMax
    && Product(wd.blockThreadExtent) <= props.blockThreadCountMax
    && Product(wd.threadElemExtent) <= props.threadElemCountMax
  }
}
