/** The zkVM guest program and its agreement with verification on the host. */
module Guest {
  import opened Basics
  import opened Journal
  import opened Verifier
  import Guarantees

  /** The guest's `main`: the bytes it commits, or nothing when it panics. */
  function Run(env: Environment, inputBytes: seq<byte>): Option<seq<byte>> {
    match DecodeInput(inputBytes)
    case Err(_) => None
    case Ok(input) =>
      match Verify(env, input)
      case Err(_) => None
      case Ok(journal) => Some(EncodeJournal(journal))
  }

  /**
   * For every input, the guest commits bytes exactly when verification on the host succeeds, and those bytes decode
   * to the host's journal. The bounds say that input and journal fit a machine with 64-bit lengths.
   */
  lemma HostGuestAgreement(env: Environment, input: VerifierInput)
    requires |input.attestationReport| < TWO_TO_63
    requires var host := Verify(env, input);
             host.Ok? ==> 64 * |host.value.certs| + |host.value.moduleId| < TWO_TO_63
    ensures var host, committed := Verify(env, input), Run(env, EncodeInput(input));
            && (committed.None? <==> host.Err?)
            && (committed.Some? ==> committed.value == EncodeJournal(host.value))
            && (committed.Some? ==> DecodeJournal(committed.value) == host)
  {
    InputLengthExact(input);
    InputRoundTrip(input);
    var host := Verify(env, input);
    if host.Ok? {
      Guarantees.PublicValuesBound(env, input);
      JournalRoundTrip(host.value);
    }
  }

  /**
   * Whatever bytes the guest is given, it commits exactly when they decode to an input that the host accepts, and
   * what it commits is that input's journal.
   */
  lemma CommitsOnlyVerified(env: Environment, inputBytes: seq<byte>)
    ensures Run(env, inputBytes).Some? <==> DecodeInput(inputBytes).Ok? && Verify(env, DecodeInput(inputBytes).value).Ok?
    ensures Run(env, inputBytes).Some? ==>
              var journal := Verify(env, DecodeInput(inputBytes).value).value;
              Run(env, inputBytes).value == EncodeJournal(journal) && Guarantees.WellShaped(journal)
  {
    if Run(env, inputBytes).Some? {
      Guarantees.JournalInvariants(env, DecodeInput(inputBytes).value);
    }
  }
}
