/**
 * handle_SIGTSTP as a sequential step: it flips foreground-only mode and
 * writes a fixed number of bytes of one of two string literals, chosen by
 * the mode before the flip. The count written for the entry message is one
 * more than its length; the shell uses the corrected Toggle.
 */
module Sigtstp {

  const EXITING_MESSAGE: seq<char> := "\nExiting foreground-only mode\n: "
  const ENTERING_MESSAGE: seq<char> := "\nEntering foreground-only mode (& is now ignored)\n: "

  /** The byte counts passed to write(). */
  const EXITING_WRITE_LENGTH := 32
  const ENTERING_WRITE_LENGTH := 53

  /** A C string literal in memory: its characters, then the NUL terminator. */
  function Stored(literal: seq<char>): seq<char> {
    literal + ['\0']
  }

  /** write(STDOUT_FILENO, buffer, n): the first n bytes of the buffer, which must hold that many. */
  function Write(storage: seq<char>, n: nat): seq<char>
    requires n <= |storage|
  {
    storage[..n]
  }

  /** The mode after a SIGTSTP and the bytes the handler wrote. */
  datatype Toggled = Toggled(foregroundOnly: bool, written: seq<char>)

  /** handle_SIGTSTP with the byte counts it passes to write(). */
  function ToggleAsWritten(foregroundOnly: bool): Toggled {
    if foregroundOnly then Toggled(false, Write(Stored(EXITING_MESSAGE), EXITING_WRITE_LENGTH))
    else Toggled(true, Write(Stored(ENTERING_MESSAGE), ENTERING_WRITE_LENGTH))
  }

  /**
   * Both writes stay inside their literal's storage. The exit message is
   * written exactly, without its terminator; the entry message has 52
   * characters, so the 53rd byte written is its NUL.
   */
  lemma WritesStayInStorage()
    ensures |EXITING_MESSAGE| == EXITING_WRITE_LENGTH
    ensures |ENTERING_MESSAGE| == 52 && |Stored(ENTERING_MESSAGE)| == ENTERING_WRITE_LENGTH
    ensures ToggleAsWritten(true).written == EXITING_MESSAGE
    ensures ToggleAsWritten(false).written == ENTERING_MESSAGE + ['\0']
    ensures ToggleAsWritten(false).written[52] == '\0'
  {
    assert Stored(EXITING_MESSAGE)[..EXITING_WRITE_LENGTH] == EXITING_MESSAGE;
    assert Stored(ENTERING_MESSAGE)[..ENTERING_WRITE_LENGTH] == Stored(ENTERING_MESSAGE);
  }

  /** handle_SIGTSTP writing each message's own length: the text and nothing else. */
  function Toggle(foregroundOnly: bool): (r: Toggled)
    ensures r.foregroundOnly == !foregroundOnly
    ensures r.written == if foregroundOnly then EXITING_MESSAGE else ENTERING_MESSAGE
  {
    var message := if foregroundOnly then EXITING_MESSAGE else ENTERING_MESSAGE;
    assert Stored(message)[..|message|] == message;
    Toggled(!foregroundOnly, Write(Stored(message), |message|))
  }

  /** The two differ only in the NUL byte the entry message drags along. */
  lemma ToggleDiffersOnlyByNul(foregroundOnly: bool)
    ensures ToggleAsWritten(foregroundOnly).foregroundOnly == Toggle(foregroundOnly).foregroundOnly
    ensures foregroundOnly ==> ToggleAsWritten(foregroundOnly).written == Toggle(foregroundOnly).written
    ensures !foregroundOnly ==> ToggleAsWritten(foregroundOnly).written == Toggle(foregroundOnly).written + ['\0']
  {
    WritesStayInStorage();
  }

  /**
   * Each signal flips the mode, and the text follows the mode before it:
   * two signals in a row write the two different messages.
   */
  lemma ToggleFlipsMode(foregroundOnly: bool)
    ensures Toggle(Toggle(foregroundOnly).foregroundOnly).foregroundOnly == foregroundOnly
    ensures Toggle(foregroundOnly).written != Toggle(Toggle(foregroundOnly).foregroundOnly).written
  {
    assert |EXITING_MESSAGE| != |ENTERING_MESSAGE|;
  }

  /** The mode after `n` signals starting from `foregroundOnly`. */
  function AfterSignals(foregroundOnly: bool, n: nat): bool
    decreases n
  {
    if n == 0 then foregroundOnly else AfterSignals(Toggle(foregroundOnly).foregroundOnly, n - 1)
  }

  /** An even number of signals restores the mode; an odd number inverts it. */
  lemma {:induction false} SignalsParity(foregroundOnly: bool, n: nat)
    ensures AfterSignals(foregroundOnly, n) == (if n % 2 == 0 then foregroundOnly else !foregroundOnly)
    decreases n
  {
    if n > 0 {
      SignalsParity(!foregroundOnly, n - 1);
    }
  }
}
