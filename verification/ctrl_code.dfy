/**
 * The control-code vocabulary of the remote-session protocol and its wire
 * form: a frame is the marker character U+0011 followed by a three-character
 * code.
 */
module CtrlCodes {
  import opened Wrappers

  /** The frame-start marker that precedes every control code on the wire. */
  const Prefix: char := '\U{11}'

  /** Width of a code on the wire. */
  const CodeWidth: nat := 3

  /** The twelve control codes, named after their meaning. */
  datatype CtrlCode =
    | Ack        // ACK
    | Nak        // NAK
    | TextBeg    // STX: start of a text block
    | TextEnd    // ETX: end of a text block
    | TextFlush  // FTX: flush output
    | KeyWait    // KEY: ask for a line of input
    | ShellWait  // KSH: ask for a line of input behind a "> " prompt
    | PassWait   // KPS: ask for a password, reply with its digest
    | AuthWait   // KAU: challenge-response authentication
    | CmdBeg     // SVC: start of a command block
    | CmdEnd     // EVC: end of a command block
    | Close      // EDT: end of the session

  /** The three characters that stand for `c` on the wire. */
  function Value(c: CtrlCode): (t: string)
    ensures |t| == CodeWidth
    ensures Prefix !in t
  {
    match c
    case Ack => "ACK"
    case Nak => "NAK"
    case TextBeg => "STX"
    case TextEnd => "ETX"
    case TextFlush => "FTX"
    case KeyWait => "KEY"
    case ShellWait => "KSH"
    case PassWait => "KPS"
    case AuthWait => "KAU"
    case CmdBeg => "SVC"
    case CmdEnd => "EVC"
    case Close => "EDT"
  }

  /**
   * Looking a code up by its text, as `CtrlCode(cmd_text)` does: the lookup
   * succeeds exactly on the twelve code texts, and then names the code whose
   * text it was; any other text has no code.
   */
  function Decode(t: string): (r: Option<CtrlCode>)
    ensures r.Some? ==> Value(r.value) == t
    ensures r.None? ==> forall c :: Value(c) != t
  {
    if t == "ACK" then Some(Ack)
    else if t == "NAK" then Some(Nak)
    else if t == "STX" then Some(TextBeg)
    else if t == "ETX" then Some(TextEnd)
    else if t == "FTX" then Some(TextFlush)
    else if t == "KEY" then Some(KeyWait)
    else if t == "KSH" then Some(ShellWait)
    else if t == "KPS" then Some(PassWait)
    else if t == "KAU" then Some(AuthWait)
    else if t == "SVC" then Some(CmdBeg)
    else if t == "EVC" then Some(CmdEnd)
    else if t == "EDT" then Some(Close)
    else None
  }

  /** Distinct codes have distinct texts. */
  lemma ValueInjective(a: CtrlCode, b: CtrlCode)
    ensures Value(a) == Value(b) ==> a == b
  {
  }

  /** Decoding the text of a code gives the code back. */
  lemma DecodeValue(c: CtrlCode)
    ensures Decode(Value(c)) == Some(c)
  {
    ValueInjective(c, Decode(Value(c)).value);
  }

  /** The bytes `_sendcmd` writes for `c`: the marker, then the code's text. */
  function Frame(c: CtrlCode): (w: string)
    ensures |w| == 1 + CodeWidth
    ensures w[0] == Prefix && Prefix !in w[1..]
    ensures Decode(w[1..]) == Some(c)
  {
    DecodeValue(c);
    assert ([Prefix] + Value(c))[1..] == Value(c);
    [Prefix] + Value(c)
  }
}
