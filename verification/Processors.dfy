/** Logical processors (tailslayer/include/tailslayer/proc.hpp). */
module Processors {
  import opened Machine
  import opened Bits

  /** GROUP_AFFINITY, and GroupPair, which has the same two fields. */
  datatype GroupMask = GroupMask(group: u16, mask: u64)

  type CoreId = nat

  datatype LogicalProcessor = LogicalProcessor(globalID: u32, coreID: u32, pkgID: u16, usable: bool, affinity: GroupMask)
  {
    /** Core number in the low 32 bits, package number above them. */
    function UniqueCoreID(): CoreId {
      Or(ShiftLeft(pkgID, 32), coreID)
    }
  }

  type Procs = seq<LogicalProcessor>

  /** What the manager hands out when nothing is left. */
  const NO_PROCESSOR := LogicalProcessor(U32_MAX, U32_MAX, U16_MAX, false, GroupMask(0, 0))

  lemma UniqueCoreIDValue(p: LogicalProcessor)
    ensures p.UniqueCoreID() == p.pkgID * 0x1_0000_0000 + p.coreID
  {
    Pow2Constants();
    OrDisjoint(p.pkgID, p.coreID, 32);
    ShiftLeftMultiplies(p.pkgID, 32);
  }

  /** The identifier determines core and package. */
  lemma UniqueCoreIDIsUnique(p: LogicalProcessor, q: LogicalProcessor)
    ensures p.UniqueCoreID() == q.UniqueCoreID() <==> p.coreID == q.coreID && p.pkgID == q.pkgID
  {
    UniqueCoreIDValue(p);
    UniqueCoreIDValue(q);
  }
}
