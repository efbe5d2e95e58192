/** `purge-osd`: the gate that decides between an unforced purge and a forced one after a confirmation. */
module PurgeGate {
  import opened Outcomes
  import opened Decimal

  /** Ceph's answer to safe-to-destroy: a failed command, text that is not the expected JSON, or OSD ids. */
  datatype CephReply = CommandFailed(error: string) | Garbled(error: string) | SafeIds(ids: seq<int64>)

  datatype Outcome = InvalidId | Cancelled | CheckFailed | Purged(osdID: string, force: string)

  const CONFIRMATION := "yes-force-destroy-osd"

  /** `SafeToDestroy` of the osd package: the decision and the error it returns. */
  function SafeToDestroy(reply: CephReply, osdID: string): (bool, Option<string>) {
    match reply
    case CommandFailed(error) => (false, Some(error))
    case Garbled(error) => (false, Some(error))
    case SafeIds(ids) => if ids != [] && PrintInt(ids[0]) == osdID then (true, None) else (false, None)
  }

  /**
   Comparing texts identifies the OSD: for a valid argument the gate passes exactly if the argument spells the first
   id that ceph calls safe, and spells it plainly, without a plus sign or superfluous zeros.
   */
  lemma GateIdentifiesOsd(reply: CephReply, osdID: string)
    requires Atoi(osdID).Some?
    ensures SafeToDestroy(reply, osdID).0 <==>
              && reply.SafeIds? && reply.ids != [] && Spells(osdID, reply.ids[0])
              && (osdID == "0" || '1' <= osdID[0] <= '9'
                  || (|osdID| > 1 && osdID[0] == '-' && '1' <= osdID[1] <= '9'))
  {
    OnlyPlainIsPrinted(osdID);
    if reply.SafeIds? && reply.ids != [] {
      AtoiOfPrint(reply.ids[0]);
      AtoiExactly(osdID, reply.ids[0]);
    }
  }

  /** One reply never lets two different arguments through. */
  lemma GatePassesOneArgument(reply: CephReply, osdID: string, osdID': string)
    requires osdID != osdID'
    ensures !(SafeToDestroy(reply, osdID).0 && SafeToDestroy(reply, osdID').0)
    ensures Atoi(osdID).Some? && Atoi(osdID) == Atoi(osdID') ==> !Plain(osdID) || !Plain(osdID')
  {
    if Atoi(osdID).Some? && Atoi(osdID) == Atoi(osdID') {
      OnlyPlainIsPrinted(osdID);
      OnlyPlainIsPrinted(osdID');
    }
  }

  lemma AtoiIsValid(osdID: string)
    ensures Atoi(osdID).Some? <==> exists n: int64 :: Spells(osdID, n)
    ensures Atoi(osdID).Some? ==> osdID != ""
  {
    if Atoi(osdID).Some? {
      AtoiExactly(osdID, Atoi(osdID).value);
    }
    if n: int64 :| Spells(osdID, n) {
      AtoiExactly(osdID, n);
    }
  }

  /**
   The whole command. `accepts` is the confirmation check, given what it expects and what the user typed.
   A purge without force needs ceph's word for exactly this OSD; every other spelling, 007 for 7 included,
   goes to the prompt; the branch for a safe result that comes with an error is never taken.
   */
  method PurgeOsd(osdID: string, reply: CephReply, answer: string, accepts: (string, string) -> bool)
    returns (outcome: Outcome)
    ensures var valid := exists n: int64 :: Spells(osdID, n);
            var safe := && reply.SafeIds? && reply.ids != [] && Spells(osdID, reply.ids[0])
                        && osdID != ""
                        && (osdID == "0" || '1' <= osdID[0] <= '9'
                            || (|osdID| > 1 && osdID[0] == '-' && '1' <= osdID[1] <= '9'));
            var accepted := accepts("yes-force-destroy-osd", answer);
            && (outcome == InvalidId <==> !valid)
            && (outcome == Purged(osdID, "false") <==> safe)
            && (outcome == Purged(osdID, "true") <==> valid && !safe && accepted)
            && (outcome == Cancelled <==> valid && !safe && !accepted)
            && outcome != CheckFailed
  {
    AtoiIsValid(osdID);
    if Atoi(osdID).None? {
      return InvalidId;
    }
    var forceflagValue := "false";
    var (safeToDestroy, err) := SafeToDestroy(reply, osdID);
    GateIdentifiesOsd(reply, osdID);
    if !safeToDestroy {
      if !accepts(CONFIRMATION, answer) {
        return Cancelled;
      }
      forceflagValue := "true";
    } else if err.Some? {
      return CheckFailed;
    }
    return Purged(osdID, forceflagValue);
  }
}
