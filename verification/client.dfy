/**
 * The client half of a session (`TeaClient.connect`): a scanner that reads the
 * received characters one at a time, tells frames from literal text, and
 * drives a small state machine that displays text and answers prompts.
 *
 * The socket is replaced by the sequence of already-decoded chunks the server
 * will deliver, the terminal by the sequence of lines the user will type, and
 * the password digest and signing key by functions supplied by the caller.
 */
module Client {
  import opened Wrappers
  import opened Strings
  import opened CtrlCodes
  import opened Lexer
  import Session

  /** `ClientState`: exactly one is current; NOP is initial and CLOSE ends the receive loop. */
  datatype ClientState = NOP | CLOSE | TEXT | KEYWAIT | CMD

  type Byte = b: int | 0 <= b < 256

  /** What the client writes back on the socket. */
  datatype Reply =
    | Text(text: string)    // a typed line, or the signed reply to a challenge
    | Raw(bytes: seq<Byte>) // a password digest

  /**
   * The collaborators the client calls but whose code is not part of this
   * model: the digest of a password, and the signature of a nonce under the
   * key unlocked by a password, as the text that goes into the reply.
   */
  datatype Keys = Keys(digest: string -> seq<Byte>, sign: (string, string) -> string)

  /** Everything the receive loop reads and writes. */
  datatype Machine = Machine(
    state: ClientState,
    shown: string,        // what has been written to standard output
    sent: seq<Reply>,     // what has been written back to the server, in order
    pending: seq<string>, // chunks the server will still deliver, in order
    typed: seq<string>)   // lines the user will still type at the terminal, in order

  /** The client as constructed: state NOP, nothing shown or sent yet. */
  function Initial(chunks: seq<string>, typed: seq<string>): Machine
  {
    Machine(NOP, "", [], chunks, typed)
  }

  /** How the receive loop can end abnormally. */
  datatype Fault =
    | BadFrame(frame: FrameFault) // the characters after a marker are missing or not a code
    | LiteralInCommand(ch: char)  // a literal inside a command block reaches an unset buffer
    | InputExhausted              // the terminal ended while a non-empty line was awaited

  /**
   * The result of processing input: `Ok` when the input was consumed (for
   * the whole loop: when it stopped in CLOSE), `Failed` with the exception
   * that ended it, `Blocked` when it waits on a receive that no further
   * chunk will satisfy.
   */
  datatype Outcome = Ok(m: Machine) | Failed(fault: Fault, m: Machine) | Blocked(m: Machine)

  /** The `n`-th typed line is the first one that is not empty. */
  predicate FirstNonEmpty(typed: seq<string>, n: nat)
  {
    1 <= n <= |typed| && typed[n - 1] != "" && forall i :: 0 <= i < n - 1 ==> typed[i] == ""
  }

  /** A line the user typed, and how many terminal lines were read to get it. */
  datatype Entry = Entry(line: string, used: nat)

  /**
   * The `while True: ... if s_msg != "": break` loops: read lines until one is
   * non-empty. The line returned is the first non-empty one, every line read
   * before it was empty; there is none exactly when every remaining line is
   * empty.
   */
  function ReadLine(typed: seq<string>): (r: Option<Entry>)
    ensures r.Some? ==> FirstNonEmpty(typed, r.value.used) && r.value.line == typed[r.value.used - 1]
    ensures r.None? <==> forall i :: 0 <= i < |typed| ==> typed[i] == ""
    decreases |typed|
  {
    if typed == [] then None
    else if typed[0] != "" then Some(Entry(typed[0], 1))
    else
      match ReadLine(typed[1..])
      case None => None
      case Some(e) => Some(Entry(e.line, e.used + 1))
  }

  /** The output of `input("> ")` called `n` times. */
  function Prompts(n: nat): (p: string)
    ensures |p| == 2 * n
    ensures forall i :: 0 <= i < |p| ==> p[i] == if i % 2 == 0 then '>' else ' '
  {
    if n == 0 then ""
    else
      var q := Prompts(n - 1);
      assert forall i :: 2 <= i < |q| + 2 ==> ("> " + q)[i] == q[i - 2];
      "> " + q
  }

  /**
   * KEY and KSH: wait for a non-empty line and send it; KSH shows a prompt
   * before each read. The line sent is the first non-empty one typed, with
   * one prompt per line read; when every line is empty the terminal runs out.
   */
  function AwaitLine(w: Machine, prompt: bool): (r: Outcome)
    ensures r.Ok? <==> exists i :: 0 <= i < |w.typed| && w.typed[i] != ""
    ensures r.Ok? ==> exists n: nat :: FirstNonEmpty(w.typed, n)
                        && r.m == w.(state := NOP, shown := w.shown + (if prompt then Prompts(n) else ""),
                                     sent := w.sent + [Text(w.typed[n - 1])], typed := w.typed[n..])
    ensures !r.Ok? ==> r == Failed(InputExhausted, w.(typed := [], shown := w.shown + (if prompt then Prompts(|w.typed| + 1) else "")))
  {
    match ReadLine(w.typed)
    case None =>
      var shown := if prompt then w.shown + Prompts(|w.typed| + 1) else w.shown;
      Failed(InputExhausted, w.(typed := [], shown := shown))
    case Some(e) =>
      assert FirstNonEmpty(w.typed, e.used);
      var shown := if prompt then w.shown + Prompts(e.used) else w.shown;
      Ok(w.(state := NOP, shown := shown, sent := w.sent + [Text(e.line)], typed := w.typed[e.used..]))
  }

  /** KPS: wait for a non-empty password and send the digest of the first one typed. */
  function AwaitPassword(keys: Keys, w: Machine): (r: Outcome)
    ensures r.Ok? <==> exists i :: 0 <= i < |w.typed| && w.typed[i] != ""
    ensures r.Ok? ==> exists n: nat :: FirstNonEmpty(w.typed, n)
                        && r.m == w.(state := NOP, sent := w.sent + [Raw(keys.digest(w.typed[n - 1]))], typed := w.typed[n..])
    ensures !r.Ok? ==> r == Failed(InputExhausted, w.(typed := []))
  {
    match ReadLine(w.typed)
    case None => Failed(InputExhausted, w.(typed := []))
    case Some(e) =>
      assert FirstNonEmpty(w.typed, e.used);
      Ok(w.(state := NOP, sent := w.sent + [Raw(keys.digest(e.line))], typed := w.typed[e.used..]))
  }

  /**
   * KAU: receive the nonce as the next chunk, wait for a non-empty password,
   * and send the signature of the nonce, a comma and the nonce.
   */
  function AwaitAuth(keys: Keys, w: Machine): (r: Outcome)
    ensures r.Blocked? <==> w.pending == []
    ensures r.Ok? <==> w.pending != [] && exists i :: 0 <= i < |w.typed| && w.typed[i] != ""
    ensures r.Ok? ==> exists n: nat :: FirstNonEmpty(w.typed, n)
                        && r.m == w.(state := NOP, pending := w.pending[1..], typed := w.typed[n..],
                                     sent := w.sent + [Text(Session.Reply(keys.sign(w.typed[n - 1], w.pending[0]), w.pending[0]))])
    ensures r.Failed? ==> r == Failed(InputExhausted, w.(pending := w.pending[1..], typed := []))
  {
    if w.pending == [] then Blocked(w)
    else
      var nonce := w.pending[0];
      var w := w.(pending := w.pending[1..]);
      match ReadLine(w.typed)
      case None => Failed(InputExhausted, w.(typed := []))
      case Some(e) =>
        assert FirstNonEmpty(w.typed, e.used);
        var reply := Session.Reply(keys.sign(e.line, nonce), nonce);
        Ok(w.(state := NOP, sent := w.sent + [Text(reply)], typed := w.typed[e.used..]))
  }

  /** The `if cmd is ...` chain for one decoded control code. ACK and NAK match no branch. */
  function Apply(keys: Keys, m: Machine, code: CtrlCode): (r: Outcome)
    ensures |r.m.pending| <= |m.pending|
    ensures r.Blocked? ==> r.m.pending == []
  {
    match code
    case Ack => Ok(m)
    case Nak => Ok(m)
    case TextBeg => Ok(m.(state := TEXT))
    case TextEnd => Ok(m.(state := NOP))
    case TextFlush => Ok(m)
    case Close => Ok(m.(state := CLOSE))
    case KeyWait => AwaitLine(m.(state := KEYWAIT), false)
    case ShellWait => AwaitLine(m.(state := KEYWAIT), true)
    case PassWait => AwaitPassword(keys, m.(state := KEYWAIT))
    case AuthWait => AwaitAuth(keys, m.(state := KEYWAIT))
    case CmdBeg => Ok(m.(state := CMD))
    case CmdEnd => Ok(m.(state := NOP))
  }

  /**
   * A literal character: displayed in TEXT, an error in CMD, dropped
   * otherwise. Only what is shown can change.
   */
  function Literal(m: Machine, c: char): (r: Outcome)
    ensures !r.Blocked?
    ensures r.Failed? <==> m.state == CMD
    ensures r.Failed? ==> r == Failed(LiteralInCommand(c), m)
    ensures r.Ok? ==> r.m == m.(shown := m.shown + Displayed(m.state, [c]))
  {
    match m.state
    case TEXT => Ok(m.(shown := m.shown + [c]))
    case CMD => Failed(LiteralInCommand(c), m)
    case _ => Ok(m)
  }

  /** One token's effect. */
  function Step(keys: Keys, m: Machine, t: Token): (r: Outcome)
    ensures |r.m.pending| <= |m.pending|
    ensures r.Blocked? ==> r.m.pending == []
  {
    match t
    case Lit(c) => Literal(m, c)
    case Ctrl(code) => Apply(keys, m, code)
  }

  /**
   * The inner `while msg:` loop over one received chunk: pop a character; a
   * marker takes the next three characters as a code, anything else is a
   * literal. The chunk is processed to its end whatever the state becomes;
   * it only ever consumes further chunks, never adds any.
   */
  function Scan(keys: Keys, m: Machine, chunk: string): (r: Outcome)
    ensures |r.m.pending| <= |m.pending|
    ensures r.Blocked? ==> r.m.pending == []
    decreases |chunk|
  {
    if chunk == [] then Ok(m)
    else if chunk[0] != Prefix then
      var o := Literal(m, chunk[0]);
      if o.Ok? then Scan(keys, o.m, chunk[1..]) else o
    else if |chunk| < 1 + CodeWidth then Failed(BadFrame(Truncated), m)
    else
      match Decode(chunk[1..1 + CodeWidth])
      case None => Failed(BadFrame(Unknown(chunk[1..1 + CodeWidth])), m)
      case Some(code) =>
        var o := Apply(keys, m, code);
        if o.Ok? then Scan(keys, o.m, chunk[1 + CodeWidth..]) else o
  }

  /**
   * The outer `while self.__state != ClientState.CLOSE:` loop: the state is
   * tested only before each receive. It ends normally only in CLOSE, and
   * blocks only once every chunk has been received.
   */
  function Run(keys: Keys, m: Machine): (r: Outcome)
    ensures r.Ok? ==> r.m.state == CLOSE
    ensures r.Blocked? ==> r.m.pending == []
    decreases |m.pending|
  {
    if m.state == CLOSE then Ok(m)
    else if m.pending == [] then Blocked(m)
    else
      var o := Scan(keys, m.(pending := m.pending[1..]), m.pending[0]);
      if o.Ok? then Run(keys, o.m) else o
  }

  /** One turn of the outer loop: receive the next chunk and scan it. */
  lemma RunStep(keys: Keys, m: Machine, next: Machine)
    requires m.state != CLOSE && m.pending != []
    requires Scan(keys, m.(pending := m.pending[1..]), m.pending[0]) == Ok(next)
    ensures Run(keys, m) == Run(keys, next)
  {
  }

  /**
   * `connect()` on a freshly constructed client: it ends normally only in
   * CLOSE, blocks only once every chunk has been received, and never sends an
   * empty text reply.
   */
  function Connect(keys: Keys, chunks: seq<string>, typed: seq<string>): (r: Outcome)
    ensures r.Ok? ==> r.m.state == CLOSE
    ensures r.Blocked? ==> r.m.pending == []
    ensures TextRepliesNonEmpty(r.m.sent)
  {
    RunRepliesNonEmpty(keys, Initial(chunks, typed));
    Run(keys, Initial(chunks, typed))
  }

  // ---------------------------------------------------------------------------
  // The scanner against the token reading of the stream
  // ---------------------------------------------------------------------------

  /** The effect of a sequence of tokens, stopping at the first that does not complete. */
  function Feed(keys: Keys, m: Machine, tokens: seq<Token>): Outcome
    decreases |tokens|
  {
    if tokens == [] then Ok(m)
    else
      var o := Step(keys, m, tokens[0]);
      if o.Ok? then Feed(keys, o.m, tokens[1..]) else o
  }

  /** The tokens' effect, then the malformed frame that stopped the reading, if any. */
  function Settle(o: Outcome, fault: Option<FrameFault>): Outcome
  {
    if o.Ok? && fault.Some? then Failed(BadFrame(fault.value), o.m) else o
  }

  /**
   * Scanning a chunk character by character is the same as reading it into
   * tokens first and applying them in order: every token before a malformed
   * frame takes effect, and the malformed frame then fails the chunk.
   */
  lemma {:induction false} ScanIsLexThenFeed(keys: Keys, m: Machine, chunk: string)
    ensures Scan(keys, m, chunk) == Settle(Feed(keys, m, Lex(chunk).tokens), Lex(chunk).fault)
    decreases |chunk|
  {
    if chunk == [] {
    } else if chunk[0] != Prefix {
      var o := Literal(m, chunk[0]);
      var rest := Lex(chunk[1..]);
      assert Lex(chunk).tokens == [Lit(chunk[0])] + rest.tokens;
      assert Lex(chunk).tokens[1..] == rest.tokens;
      if o.Ok? {
        ScanIsLexThenFeed(keys, o.m, chunk[1..]);
      }
    } else if |chunk| >= 1 + CodeWidth {
      match Decode(chunk[1..1 + CodeWidth])
      case None =>
      case Some(code) =>
        var o := Apply(keys, m, code);
        var rest := Lex(chunk[1 + CodeWidth..]);
        assert Lex(chunk).tokens == [Ctrl(code)] + rest.tokens;
        assert Lex(chunk).tokens[1..] == rest.tokens;
        if o.Ok? {
          ScanIsLexThenFeed(keys, o.m, chunk[1 + CodeWidth..]);
        }
    }
  }

  // ---------------------------------------------------------------------------
  // Frames
  // ---------------------------------------------------------------------------

  /** The state each control code leads to, as a table. */
  function Successor(s: ClientState, code: CtrlCode): ClientState
  {
    match code
    case TextBeg => TEXT
    case TextEnd => NOP
    case CmdBeg => CMD
    case CmdEnd => NOP
    case Close => CLOSE
    case KeyWait => NOP
    case ShellWait => NOP
    case PassWait => NOP
    case AuthWait => NOP
    case _ => s // ACK, NAK and FTX leave the state alone
  }

  /** The codes that wait on the user or the server before they complete. */
  predicate Interactive(code: CtrlCode)
  {
    code == KeyWait || code == ShellWait || code == PassWait || code == AuthWait
  }

  /**
   * Every control code that completes moves the state as the table says; only
   * the interactive codes can fail or block, and a failure leaves the client
   * in KEYWAIT.
   */
  lemma ApplyFollowsTable(keys: Keys, m: Machine, code: CtrlCode)
    ensures Apply(keys, m, code).Ok? ==> Apply(keys, m, code).m.state == Successor(m.state, code)
    ensures !Interactive(code) ==> Apply(keys, m, code) == Ok(m.(state := Successor(m.state, code)))
    ensures !Apply(keys, m, code).Ok? ==> Interactive(code) && Apply(keys, m, code).m.state == KEYWAIT
  {
  }

  /** A frame at the head of a chunk takes effect, then the rest of the chunk is scanned. */
  lemma ScanFrame(keys: Keys, m: Machine, code: CtrlCode, rest: string)
    ensures var o := Apply(keys, m, code);
            Scan(keys, m, Frame(code) + rest) == if o.Ok? then Scan(keys, o.m, rest) else o
  {
    var s := Frame(code) + rest;
    assert s[1..1 + CodeWidth] == Frame(code)[1..];
    assert s[1 + CodeWidth..] == rest;
  }

  /**
   * A marker followed by three characters that are not a code fails the
   * chunk, and so does a marker with fewer than three characters after it;
   * neither is skipped, and neither changes the machine.
   */
  lemma MalformedFrameFails(keys: Keys, m: Machine, t: string, rest: string)
    ensures |t| == CodeWidth && Decode(t).None? ==>
              Scan(keys, m, [Prefix] + t + rest) == Failed(BadFrame(Unknown(t)), m)
    ensures |t| < CodeWidth ==> Scan(keys, m, [Prefix] + t) == Failed(BadFrame(Truncated), m)
  {
    if |t| == CodeWidth {
      assert ([Prefix] + t + rest)[1..1 + CodeWidth] == t;
    }
  }

  /**
   * A frame cut in two by the chunking of the stream fails: the first chunk
   * ends before the code does.
   */
  lemma SplitFrameFails(keys: Keys, m: Machine, code: CtrlCode, k: nat, more: seq<string>)
    requires 1 <= k <= CodeWidth && m.state != CLOSE
    requires m.pending == [Frame(code)[..k], Frame(code)[k..]] + more
    ensures Run(keys, m) == Failed(BadFrame(Truncated), m.(pending := [Frame(code)[k..]] + more))
  {
    assert m.pending[1..] == [Frame(code)[k..]] + more;
  }

  // ---------------------------------------------------------------------------
  // Literal text
  // ---------------------------------------------------------------------------

  /** What a state does with a run of literal text: shows it in TEXT, drops it elsewhere. */
  function Displayed(s: ClientState, text: string): string
  {
    if s == TEXT then text else ""
  }

  /**
   * A chunk without a marker never changes the state: it is shown in TEXT,
   * dropped in NOP, KEYWAIT and CLOSE, and fails at its first character in CMD.
   */
  lemma {:induction false} ScanPlainText(keys: Keys, m: Machine, chunk: string)
    requires Prefix !in chunk
    ensures Scan(keys, m, chunk) ==
              if m.state == CMD && chunk != [] then Failed(LiteralInCommand(chunk[0]), m)
              else Ok(m.(shown := m.shown + Displayed(m.state, chunk)))
    decreases |chunk|
  {
    if chunk != [] && m.state != CMD {
      var o := Literal(m, chunk[0]);
      ScanPlainText(keys, o.m, chunk[1..]);
      assert chunk == [chunk[0]] + chunk[1..];
    } else if chunk == [] {
      assert m.shown + Displayed(m.state, chunk) == m.shown;
    }
  }

  /** No chunk of the sequence holds a marker. */
  predicate PlainChunks(chunks: seq<string>)
  {
    forall i :: 0 <= i < |chunks| ==> Prefix !in chunks[i]
  }

  /**
   * A stream without a marker never changes the client's state: the loop
   * receives every chunk, shows all of it in TEXT or none of it in NOP, and
   * then waits for more.
   */
  lemma {:induction false} RunPlainChunks(keys: Keys, m: Machine)
    requires m.state == NOP || m.state == TEXT
    requires PlainChunks(m.pending)
    ensures Run(keys, m) == Blocked(m.(shown := m.shown + Displayed(m.state, Concat(m.pending)), pending := []))
    decreases |m.pending|
  {
    if m.pending == [] {
      assert m.shown + Displayed(m.state, Concat(m.pending)) == m.shown;
    } else {
      var chunk := m.pending[0];
      var m1 := m.(pending := m.pending[1..]);
      ScanPlainText(keys, m1, chunk);
      var m2 := m1.(shown := m1.shown + Displayed(m.state, chunk));
      assert PlainChunks(m2.pending) by {
        assert forall i :: 0 <= i < |m2.pending| ==> m2.pending[i] == m.pending[i + 1];
      }
      RunPlainChunks(keys, m2);
      assert Displayed(m.state, Concat(m.pending)) == Displayed(m.state, chunk) + Displayed(m.state, Concat(m.pending[1..]));
    }
  }

  // ---------------------------------------------------------------------------
  // Composition
  // ---------------------------------------------------------------------------

  /** A chunk that scans completely can be followed by anything: the rest starts where it stopped. */
  lemma {:induction false} ScanAppend(keys: Keys, m: Machine, a: string, b: string)
    requires Scan(keys, m, a).Ok?
    ensures Scan(keys, m, a + b) == Scan(keys, Scan(keys, m, a).m, b)
    decreases |a|
  {
    if a == [] {
      assert a + b == b;
    } else if a[0] != Prefix {
      assert (a + b)[0] == a[0];
      assert (a + b)[1..] == a[1..] + b;
      ScanAppend(keys, Literal(m, a[0]).m, a[1..], b);
    } else {
      assert (a + b)[0] == a[0];
      assert (a + b)[1..1 + CodeWidth] == a[1..1 + CodeWidth];
      assert (a + b)[1 + CodeWidth..] == a[1 + CodeWidth..] + b;
      var code := Decode(a[1..1 + CodeWidth]).value;
      ScanAppend(keys, Apply(keys, m, code).m, a[1 + CodeWidth..], b);
    }
  }

  /**
   * The receive loop does not stop at CLOSE inside a chunk: after an EDT
   * frame the rest of the chunk is still processed, and if it leaves the
   * client in another state the loop goes on receiving.
   */
  lemma CloseTakesEffectBetweenChunks(keys: Keys, m: Machine, rest: string, more: seq<string>)
    requires m.state != CLOSE && m.pending == [Frame(Close) + rest] + more
    ensures var o := Scan(keys, m.(state := CLOSE, pending := more), rest);
            Run(keys, m) == if o.Ok? then Run(keys, o.m) else o
  {
    ScanFrame(keys, m.(pending := more), Close, rest);
  }

  /** A close frame followed by a text block in the same chunk: the text is shown and the loop keeps receiving. */
  lemma CloseThenTextInOneChunk(keys: Keys, typed: seq<string>)
    ensures Connect(keys, [Frame(Close) + Frame(TextBeg) + "hi"], typed)
            == Blocked(Machine(TEXT, "hi", [], [], typed))
  {
    var m := Initial([Frame(Close) + Frame(TextBeg) + "hi"], typed);
    assert Frame(Close) + Frame(TextBeg) + "hi" == Frame(Close) + (Frame(TextBeg) + "hi");
    assert m.pending == [Frame(Close) + (Frame(TextBeg) + "hi")] + [];
    CloseTakesEffectBetweenChunks(keys, m, Frame(TextBeg) + "hi", []);
    var m1 := m.(state := CLOSE, pending := []);
    ScanFrame(keys, m1, TextBeg, "hi");
    ScanPlainText(keys, m1.(state := TEXT), "hi");
  }

  // ---------------------------------------------------------------------------
  // Replies
  // ---------------------------------------------------------------------------

  /** Every text reply sent is non-empty. */
  predicate TextRepliesNonEmpty(sent: seq<Reply>)
  {
    forall i :: 0 <= i < |sent| ==> sent[i].Text? ==> sent[i].text != ""
  }

  /** Each answered prompt sends exactly one reply, and a text reply is never empty. */
  lemma ApplyRepliesNonEmpty(keys: Keys, m: Machine, code: CtrlCode)
    requires TextRepliesNonEmpty(m.sent)
    ensures TextRepliesNonEmpty(Apply(keys, m, code).m.sent)
    ensures var sent := Apply(keys, m, code).m.sent;
            |sent| <= |m.sent| + 1 && sent[..|m.sent|] == m.sent
    ensures Apply(keys, m, code).Ok? && Interactive(code) ==> |Apply(keys, m, code).m.sent| == |m.sent| + 1
  {
    var r := Apply(keys, m, code);
    if r.m.sent != m.sent {
      assert r.m.sent == m.sent + [r.m.sent[|m.sent|]];
    }
  }

  /** Scanning a chunk sends no empty text reply. */
  lemma {:induction false} ScanRepliesNonEmpty(keys: Keys, m: Machine, chunk: string)
    requires TextRepliesNonEmpty(m.sent)
    ensures TextRepliesNonEmpty(Scan(keys, m, chunk).m.sent)
    decreases |chunk|
  {
    if chunk != [] {
      if chunk[0] != Prefix {
        var o := Literal(m, chunk[0]);
        if o.Ok? {
          ScanRepliesNonEmpty(keys, o.m, chunk[1..]);
        }
      } else if |chunk| >= 1 + CodeWidth && Decode(chunk[1..1 + CodeWidth]).Some? {
        var code := Decode(chunk[1..1 + CodeWidth]).value;
        ApplyRepliesNonEmpty(keys, m, code);
        var o := Apply(keys, m, code);
        if o.Ok? {
          ScanRepliesNonEmpty(keys, o.m, chunk[1 + CodeWidth..]);
        }
      }
    }
  }

  /** A whole session never sends an empty line: the input loops repeat until the user types something. */
  lemma {:induction false} RunRepliesNonEmpty(keys: Keys, m: Machine)
    requires TextRepliesNonEmpty(m.sent)
    ensures TextRepliesNonEmpty(Run(keys, m).m.sent)
    decreases |m.pending|
  {
    if m.state != CLOSE && m.pending != [] {
      var m1 := m.(pending := m.pending[1..]);
      ScanRepliesNonEmpty(keys, m1, m.pending[0]);
      var o := Scan(keys, m1, m.pending[0]);
      if o.Ok? {
        RunRepliesNonEmpty(keys, o.m);
      }
    }
  }

  /**
   * A KEY or KSH frame sends the first non-empty line the user types and
   * returns to NOP; KPS sends the digest of the first non-empty password.
   */
  lemma PromptSendsFirstNonEmptyLine(keys: Keys, m: Machine, code: CtrlCode)
    requires code == KeyWait || code == ShellWait || code == PassWait
    requires exists i :: 0 <= i < |m.typed| && m.typed[i] != ""
    ensures var o := Apply(keys, m, code);
            var e := ReadLine(m.typed).value;
            && o.Ok? && o.m.state == NOP && o.m.typed == m.typed[e.used..]
            && e.line != ""
            && o.m.sent == m.sent + [if code == PassWait then Raw(keys.digest(e.line)) else Text(e.line)]
  {
  }
}
