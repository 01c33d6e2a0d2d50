/** `verify_record` (src/elk_programmer/protocol/sync.py): ask the panel for the CRC of its
    stored record and compute the CRC of the local record's encoding. */
module VerifyRecord {
  import opened Bytes
  import opened Framing
  import opened Session
  import opened SessionWaits
  import opened SessionPairing
  import opened SessionReads
  import opened SessionCrcs
  import opened Specs
  import opened Records
  import opened RecordTheorems
  import Crc
  import CrcTheorems

  /** The panel's CRC, if it gave one, and the local one. */
  datatype Verified = Verified(panel: PanelCrc, ours: bv16)
  {
    predicate Matches() { panel == PanelCrc(ours) }
  }

  function VerifyCall(l: Link, record: byte, item: int, spec: RecordSpec, local: Record): (Link, Verified)
    requires WellFormed(spec) && WellTyped(spec.fields, local)
  {
    var (next, panel) := FetchCrc(l, record, item);
    (next, Verified(panel, Crc.Crc16(EncodeRecord(spec, local), 0)))
  }

  /** `verify_record`; `record` is the opcode of the table. */
  method VerifyRecord(session: Session, record: byte, item: int, spec: RecordSpec, local: Record)
    returns (v: Verified)
    requires WellFormed(spec) && WellTyped(spec.fields, local)
    modifies session, session.decoder
    ensures VerifyCall(old(session.Value()), record, item, spec, local) == (session.Value(), v)
  {
    var panel := session.RecordCrc(record, item);
    var raw := EncodeRecordLoop(spec, local);
    var ours := Crc.ComputeCrc16(raw, 0);
    v := Verified(panel, ours);
  }

  // ---- Over a session ----

  /** Call j of an orderly session asks for the CRC of a record that the panel has stored, and turns down
      every late answer that it may be given. */
  ghost predicate Verifies(l: Link, calls: seq<Call>, dues: seq<Due>, store: Store, j: nat, spec: RecordSpec) {
    && OrderlyCalls(l, calls, dues, store) && ProperReads(calls)
    && j < |calls| && calls[j].CrcCall? && Callable(calls[j])
    && TurnsDownLate(CallWaits(l, calls), j, CallRequest(calls[j]), dues)
    && WellFormed(spec) && |store(calls[j].record, calls[j].item)| == spec.Size()
  }

  /** Verifying this local record there. */
  function VerifiedAt(l: Link, calls: seq<Call>, j: nat, spec: RecordSpec, local: Record): Verified
    requires AllCallable(calls) && j < |calls| && calls[j].CrcCall?
    requires WellFormed(spec) && WellTyped(spec.fields, local)
  {
    VerifyCall(LinkAt(l, calls, j), calls[j].record, calls[j].item, spec, local).1
  }

  /** A record that was received and not edited matches, if the panel answers at all and its bytes are
      in normal form. */
  lemma ReceivedMatches(l: Link, calls: seq<Call>, dues: seq<Due>, store: Store, j: nat, spec: RecordSpec,
                        local: Record)
    requires Verifies(l, calls, dues, store, j, spec)
    requires Holds(spec.fields, store(calls[j].record, calls[j].item), local)
    requires IsNormal(spec.fields, store(calls[j].record, calls[j].item))
    ensures WellTyped(spec.fields, local)
    ensures var v := VerifiedAt(l, calls, j, spec, local); v.panel.PanelCrc? ==> v.Matches()
  {
    var stored := store(calls[j].record, calls[j].item);
    EncodeHolding(spec.fields, stored, local);
    NormalFixedPoints(spec.fields, stored);
    CrcIsOfItemAskedFor(l, calls, dues, store, j);
  }

  /** A difference confined to two adjacent bytes is never reported as a match. */
  lemma AdjacentDifferenceFound(l: Link, calls: seq<Call>, dues: seq<Due>, store: Store, j: nat, spec: RecordSpec,
                                local: Record, i: nat)
    requires Verifies(l, calls, dues, store, j, spec) && WellTyped(spec.fields, local)
    requires EncodeRecord(spec, local) != store(calls[j].record, calls[j].item)
    requires forall k | 0 <= k < spec.Size() && k != i && k != i + 1 ::
      EncodeRecord(spec, local)[k] == store(calls[j].record, calls[j].item)[k]
    ensures !VerifiedAt(l, calls, j, spec, local).Matches()
  {
    var stored := store(calls[j].record, calls[j].item);
    CrcIsOfItemAskedFor(l, calls, dues, store, j);
    CrcTheorems.AdjacentBytesDetected(stored, EncodeRecord(spec, local), 0, i);
  }

  /** In general it is a match exactly when the CRCs of the stored and the local bytes are equal. */
  lemma MatchesIff(l: Link, calls: seq<Call>, dues: seq<Due>, store: Store, j: nat, spec: RecordSpec, local: Record)
    requires Verifies(l, calls, dues, store, j, spec) && WellTyped(spec.fields, local)
    requires VerifiedAt(l, calls, j, spec, local).panel.PanelCrc?
    ensures VerifiedAt(l, calls, j, spec, local).Matches() <==>
            Crc.Crc16(store(calls[j].record, calls[j].item), 0) == Crc.Crc16(EncodeRecord(spec, local), 0)
  {
    CrcIsOfItemAskedFor(l, calls, dues, store, j);
  }
}
