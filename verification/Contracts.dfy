/** Protocol time, what a node says, and about exactly which claim. */
module Contracts {
  import opened Basics
  import opened Postcard

  // ---- time ----

  /** The most any two honest clocks may differ, in seconds. */
  const MAX_CLOCK_SKEW_SECONDS: u64 := 30

  /** The local reading is past the deadline by more than any honest clock
      could differ. */
  predicate CertainlyAfter(now: u64, deadline: u64) {
    now > SaturatingAdd(deadline, MAX_CLOCK_SKEW_SECONDS)
  }

  predicate CertainlyBefore(now: u64, deadline: u64) {
    SaturatingAdd(now, MAX_CLOCK_SKEW_SECONDS) < deadline
  }

  predicate UncertainAbout(now: u64, deadline: u64) {
    !CertainlyAfter(now, deadline) && !CertainlyBefore(now, deadline)
  }

  // ---- deadlines ----

  const CONSULTATION_CUTOFF_SECONDS: u64 := 300
  const ENDORSEMENT_TARGET_SECONDS: u64 := 600
  const PHASE_SETTLE_SECONDS: u64 := 2
  const BINDING_STAGE_OPENS_SECONDS: u64 :=
    CONSULTATION_CUTOFF_SECONDS + 2 * MAX_CLOCK_SKEW_SECONDS + PHASE_SETTLE_SECONDS
  const DEFAULT_VALIDITY_SECONDS: u64 := 1_800

  // ---- claims and utterances ----

  type digest = s: seq<byte> | |s| == 32 witness seq(32, _ => 0)

  datatype Subject = Subject(
    mission: text, event: text, revision: u32, contentHash: digest, startedAt: u64)
  {
    function ConsultationCutoff(): u64 {
      SaturatingAdd(startedAt, CONSULTATION_CUTOFF_SECONDS)
    }

    function DefaultExpiry(): u64 {
      SaturatingAdd(startedAt, DEFAULT_VALIDITY_SECONDS)
    }
  }

  datatype SubjectError = BlankIdentifier

  /** Only blanks are refused: a mission or event may hold any other text. */
  function NewSubject(mission: text, event: text, revision: u32, contentHash: digest, startedAt: u64)
    : Result<Subject, SubjectError>
  {
    if mission == [] || event == [] then Err(BlankIdentifier)
    else Ok(Subject(mission, event, revision, contentHash, startedAt))
  }

  datatype Verdict = Support | Dispute | InsufficientData

  datatype Stage = Independent | Consultation | BindingSupport

  datatype Opinion = Opinion(author: text, subject: Subject, stage: Stage, verdict: Verdict)
}
