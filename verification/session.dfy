/**
 * The server half of a session (`TeaSession`): the characters each operation
 * writes to the socket, and the challenge-response check of the peer's reply.
 * Socket writes are modelled by the strings written; receives are parameters.
 */
module Session {
  import opened Wrappers
  import opened Strings
  import opened CtrlCodes

  /** `_sendcmd(cmd)`: the frame for `cmd`. */
  function SendCmd(cmd: CtrlCode): (w: string)
    ensures |w| == 1 + CodeWidth && w[0] == Prefix && Decode(w[1..]) == Some(cmd)
  {
    Frame(cmd)
  }

  /** `sendtext(text)`: the text as is, outside any frame. */
  function SendText(text: string): string
  {
    text
  }

  /** `sendtextln(text)`: the text and a newline. */
  function SendTextLn(text: string): (w: string)
    ensures |w| == |text| + 1 && w[..|text|] == text && w[|text|] == '\n'
  {
    text + "\n"
  }

  /** `close()`: the end-of-session frame; the socket itself stays open. */
  function CloseSession(): (w: string)
    ensures |w| == 1 + CodeWidth && w[0] == Prefix && Decode(w[1..]) == Some(Close)
  {
    SendCmd(Close)
  }

  /** `keywait()`, `shellwait()`, `passwait()`: the frame that asks the peer for a reply. */
  function Prompt(kind: CtrlCode): (w: string)
    requires kind == KeyWait || kind == ShellWait || kind == PassWait
    ensures |w| == 1 + CodeWidth && w[0] == Prefix && Decode(w[1..]) == Some(kind)
  {
    SendCmd(kind)
  }

  /** The text `print(*parts, sep=sep, end=end)` puts inside its text block. */
  function PrintPayload(parts: seq<string>, sep: string, end: string): string
  {
    Join(parts, sep) + end
  }

  /**
   * `print(*parts, sep=sep, end=end)`: a text-begin frame, the parts joined by
   * `sep` and followed by `end`, then a text-end frame.
   */
  function Print(parts: seq<string>, sep: string, end: string): (w: string)
    ensures var n := |PrintPayload(parts, sep, end)|;
            |w| == n + 2 * (1 + CodeWidth)
            && w[..1 + CodeWidth] == Frame(TextBeg)
            && w[1 + CodeWidth..1 + CodeWidth + n] == PrintPayload(parts, sep, end)
            && w[1 + CodeWidth + n..] == Frame(TextEnd)
  {
    SendCmd(TextBeg) + PrintPayload(parts, sep, end) + SendCmd(TextEnd)
  }

  /** The first half of `challnge`: the authentication frame, then the nonce. */
  function Challenge(nonce: string): (w: string)
    ensures |w| == 1 + CodeWidth + |nonce|
    ensures w[..1 + CodeWidth] == Frame(AuthWait) && w[1 + CodeWidth..] == nonce
  {
    SendCmd(AuthWait) + nonce
  }

  /** How the server's handling of an authentication reply can fail. */
  datatype AuthFault =
    | MalformedReply(parts: nat) // `sig, res_cc = rmsg.split(",")` did not find exactly two parts
    | EchoMismatch               // `challnge` returned None, which the caller cannot unpack

  /**
   * `sig, res_cc = rmsg.split(",")`: succeeds exactly when the reply holds
   * one comma, and then yields the comma-free text before and after it.
   */
  function ParseReply(reply: string): (r: Result<(string, string), AuthFault>)
    ensures r.Success? <==> Count(reply, ',') == 1
    ensures r.Success? ==>
              r.value.0 + "," + r.value.1 == reply && ',' !in r.value.0 && ',' !in r.value.1
    ensures r.Failure? ==> r.error == MalformedReply(Count(reply, ',') + 1)
  {
    var parts := Split(reply, ',');
    if |parts| != 2 then Failure(MalformedReply(|parts|))
    else
      assert Join(parts, [',']) == parts[0] + [','] + parts[1];
      Success((parts[0], parts[1]))
  }

  /** The reply the client builds: the signature, a comma, the nonce it was sent. */
  function Reply(sig: string, nonce: string): string
  {
    sig + "," + nonce
  }

  /** The reply parses back into signature and nonce exactly when neither holds a comma. */
  lemma ParseReplyRoundTrip(sig: string, nonce: string)
    ensures ParseReply(Reply(sig, nonce)) == Success((sig, nonce)) <==> ',' !in sig && ',' !in nonce
  {
    if ',' !in sig && ',' !in nonce {
      SplitJoin([sig, nonce], ',');
      assert Join([sig, nonce], [',']) == Reply(sig, nonce);
    }
  }

  /** The reply ends with a comma followed by the issued nonce. */
  predicate EchoesNonce(reply: string, nonce: string)
  {
    |reply| > |nonce| && reply[|reply| - |nonce| - 1..] == [','] + nonce
  }

  /** The signature part of a reply that echoes `nonce`. */
  function SignatureOf(reply: string, nonce: string): string
    requires EchoesNonce(reply, nonce)
  {
    reply[..|reply| - |nonce| - 1]
  }

  /**
   * `auth` over a received reply, with `verify(sig, message)` standing for the
   * stored public key's signature check. A reply without exactly one comma
   * fails to unpack; a reply whose echoed nonce differs makes `challnge`
   * return None, which also fails to unpack; only an echo of the issued nonce
   * reaches the signature check, and its verdict is the answer.
   */
  function Auth(nonce: string, reply: string, verify: (string, string) -> bool): (r: Result<bool, AuthFault>)
    ensures Count(reply, ',') != 1 ==> r == Failure(MalformedReply(Count(reply, ',') + 1))
    ensures Count(reply, ',') == 1 && !EchoesNonce(reply, nonce) ==> r == Failure(EchoMismatch)
    ensures r.Success? <==> Count(reply, ',') == 1 && EchoesNonce(reply, nonce)
    ensures r.Success? ==> r.value == verify(SignatureOf(reply, nonce), nonce)
  {
    match ParseReply(reply)
    case Failure(e) => Failure(e)
    case Success((sig, echo)) =>
      EchoDecides(reply, nonce, sig, echo);
      if echo == nonce then Success(verify(sig, nonce)) else Failure(EchoMismatch)
  }

  /**
   * For a reply that parses into `sig` and `echo`, the echo is the nonce
   * exactly when the reply ends with a comma and the nonce, and the signature
   * is then everything before that comma.
   */
  lemma EchoDecides(reply: string, nonce: string, sig: string, echo: string)
    requires ParseReply(reply) == Success((sig, echo))
    ensures EchoesNonce(reply, nonce) <==> echo == nonce
    ensures echo == nonce ==> SignatureOf(reply, nonce) == sig
  {
    if echo == nonce {
      assert reply[|reply| - |nonce| - 1..] == [','] + nonce;
      assert SignatureOf(reply, nonce) == sig;
    }
    if EchoesNonce(reply, nonce) {
      var pre := SignatureOf(reply, nonce);
      assert pre + "," + nonce == reply;
      CountAppend(pre, [','] + nonce, ',');
      CountAppend([','], nonce, ',');
      CountZero(pre, ',');
      CountZero(nonce, ',');
      ParseReplyRoundTrip(pre, nonce);
    }
  }

  /**
   * `auth` as its author evidently meant it: every failure of the nonce check
   * is answered with false instead of an unpacking error.
   */
  function AuthIntended(nonce: string, reply: string, verify: (string, string) -> bool): (r: Result<bool, AuthFault>)
    ensures r.Success? <==> Count(reply, ',') == 1
    ensures r == Success(true) <==> EchoesNonce(reply, nonce) && Count(reply, ',') == 1
                                    && verify(SignatureOf(reply, nonce), nonce)
  {
    match Auth(nonce, reply, verify)
    case Failure(EchoMismatch) => Success(false)
    case other => other
  }

  /** An accepted reply always echoes the issued nonce and carries a valid signature for it. */
  lemma AuthAcceptsOnlyIssuedNonce(nonce: string, reply: string, verify: (string, string) -> bool)
    ensures Auth(nonce, reply, verify) == Success(true) ==>
              EchoesNonce(reply, nonce) && verify(SignatureOf(reply, nonce), nonce)
    ensures Auth(nonce, reply, verify) == Success(true) ==> ParseReply(reply) == Success((SignatureOf(reply, nonce), nonce))
  {
    if Auth(nonce, reply, verify) == Success(true) {
      var (sig, echo) := ParseReply(reply).value;
      EchoDecides(reply, nonce, sig, echo);
    }
  }

  /** The reply a client builds from the nonce it received passes the check exactly when its signature verifies. */
  lemma AuthOfHonestReply(sig: string, nonce: string, verify: (string, string) -> bool)
    requires ',' !in sig && ',' !in nonce
    ensures Auth(nonce, Reply(sig, nonce), verify) == Success(verify(sig, nonce))
  {
    ParseReplyRoundTrip(sig, nonce);
  }

  /**
   * A reply echoing a different nonce: the code as written fails with an
   * unpacking error where the intended code answers false.
   */
  lemma MismatchRaises(verify: (string, string) -> bool)
    ensures Auth("abc", "sig,abd", verify) == Failure(EchoMismatch)
    ensures AuthIntended("abc", "sig,abd", verify) == Success(false)
  {
    var reply := "sig,abd";
    assert Split(reply, ',') == ["sig", "abd"] by {
      SplitJoin(["sig", "abd"], ',');
      assert Join(["sig", "abd"], [',']) == reply;
    }
  }
}
