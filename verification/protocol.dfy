/**
 * What the server writes, as the client reads it: text blocks, prompts and
 * the challenge-response exchange, end to end.
 */
module Protocol {
  import opened Wrappers
  import opened Strings
  import opened CtrlCodes
  import opened Client
  import Session

  /** The text that `print` puts inside its block holds no marker when none of its pieces does. */
  lemma PayloadIsPlain(parts: seq<string>, sep: string, end: string)
    requires forall i :: 0 <= i < |parts| ==> Prefix !in parts[i]
    requires Prefix !in sep && Prefix !in end
    ensures Prefix !in Session.PrintPayload(parts, sep, end)
  {
    JoinAvoids(parts, sep, Prefix);
  }

  /**
   * Whatever state the client is in, the characters `print(*parts, sep=sep,
   * end=end)` writes make it show exactly `sep.join(parts) + end` and leave it
   * in NOP, provided no piece holds the marker.
   */
  lemma PrintDisplaysText(keys: Keys, m: Machine, parts: seq<string>, sep: string, end: string)
    requires forall i :: 0 <= i < |parts| ==> Prefix !in parts[i]
    requires Prefix !in sep && Prefix !in end
    ensures Scan(keys, m, Session.Print(parts, sep, end))
            == Ok(m.(state := NOP, shown := m.shown + Join(parts, sep) + end))
  {
    var payload := Session.PrintPayload(parts, sep, end);
    PayloadIsPlain(parts, sep, end);
    var inText := m.(state := TEXT);
    assert Session.Print(parts, sep, end) == Frame(TextBeg) + (payload + Frame(TextEnd));
    ScanFrame(keys, m, TextBeg, payload + Frame(TextEnd));
    ScanPlainText(keys, inText, payload);
    ScanAppend(keys, inText, payload, Frame(TextEnd));
    var shown := inText.(shown := m.shown + payload);
    ScanFrame(keys, shown, TextEnd, "");
    assert Frame(TextEnd) + "" == Frame(TextEnd);
    assert m.shown + payload == m.shown + Join(parts, sep) + end;
  }

  /**
   * `sendtext(text)` writes no frame: for text without the marker the client
   * keeps its state, shows the text inside a text block, drops it outside
   * one, and fails on its first character inside a command block.
   */
  lemma SendTextKeepsState(keys: Keys, m: Machine, text: string)
    requires Prefix !in text
    ensures Scan(keys, m, Session.SendText(text)) ==
              if m.state == CMD && text != [] then Failed(LiteralInCommand(text[0]), m)
              else Ok(m.(shown := m.shown + Displayed(m.state, text)))
  {
    ScanPlainText(keys, m, Session.SendText(text));
  }

  /**
   * `sendtextln(text)` is read as the text and a newline: inside a text block
   * both are shown and the block stays open; outside one both are dropped;
   * inside a command block the first character fails.
   */
  lemma SendTextLnShowsLine(keys: Keys, m: Machine, text: string)
    requires Prefix !in text
    ensures m.state == CMD ==>
              Scan(keys, m, Session.SendTextLn(text)) == Failed(LiteralInCommand((text + "\n")[0]), m)
    ensures m.state != CMD ==>
              Scan(keys, m, Session.SendTextLn(text)) == Ok(m.(shown := m.shown + Displayed(m.state, text + "\n")))
  {
    var w := Session.SendTextLn(text);
    assert w == text + "\n";
    assert Prefix !in w by {
      assert forall i :: 0 <= i < |w| ==> w[i] != Prefix by {
        assert forall i :: 0 <= i < |text| ==> w[i] == text[i];
      }
    }
    ScanPlainText(keys, m, w);
  }

  /**
   * What `keywait`, `shellwait` and `passwait` write is read as their own
   * code: the prompt takes effect, then the rest of the chunk is scanned.
   */
  lemma ScanPrompt(keys: Keys, m: Machine, kind: CtrlCode, rest: string)
    requires kind == KeyWait || kind == ShellWait || kind == PassWait
    ensures var o := Apply(keys, m, kind);
            Scan(keys, m, Session.Prompt(kind) + rest) == if o.Ok? then Scan(keys, o.m, rest) else o
  {
    ScanFrame(keys, m, kind, rest);
  }

  /**
   * A session that prints a block and closes: the client shows the block,
   * reads the close frame from the next chunk and stops in CLOSE, having sent
   * nothing and read nothing from the terminal.
   */
  lemma PrintThenClose(keys: Keys, parts: seq<string>, sep: string, end: string, typed: seq<string>)
    requires forall i :: 0 <= i < |parts| ==> Prefix !in parts[i]
    requires Prefix !in sep && Prefix !in end
    ensures Connect(keys, [Session.Print(parts, sep, end), Session.CloseSession()], typed)
            == Ok(Machine(CLOSE, Join(parts, sep) + end, [], [], typed))
  {
    var c := Session.CloseSession();
    assert [Session.Print(parts, sep, end), c] == [Session.Print(parts, sep, end)] + [c];
    PrintFirst(keys, parts, sep, end, typed, [c]);
    CloseEndsRun(keys, Machine(NOP, Join(parts, sep) + end, [], [c], typed));
  }

  /** A first chunk holding a `print` block is shown in full, and the loop goes on from NOP. */
  lemma PrintFirst(keys: Keys, parts: seq<string>, sep: string, end: string, typed: seq<string>, more: seq<string>)
    requires forall i :: 0 <= i < |parts| ==> Prefix !in parts[i]
    requires Prefix !in sep && Prefix !in end
    ensures Run(keys, Initial([Session.Print(parts, sep, end)] + more, typed))
            == Run(keys, Machine(NOP, Join(parts, sep) + end, [], more, typed))
  {
    var m := Initial([Session.Print(parts, sep, end)] + more, typed);
    assert m.pending[1..] == more;
    PrintDisplaysText(keys, m.(pending := more), parts, sep, end);
    RunStep(keys, m, Machine(NOP, Join(parts, sep) + end, [], more, typed));
  }

  /** A last chunk holding only the close frame ends the receive loop in CLOSE, changing nothing else. */
  lemma CloseEndsRun(keys: Keys, m: Machine)
    requires m.state != CLOSE && m.pending == [Session.CloseSession()]
    ensures Run(keys, m) == Ok(m.(state := CLOSE, pending := []))
  {
    var m1 := m.(pending := []);
    assert Session.CloseSession() == Frame(Close) + "";
    ScanFrame(keys, m1, Close, "");
    RunStep(keys, m, m1.(state := CLOSE));
  }

  /**
   * The challenge-response exchange when the nonce arrives as its own chunk:
   * the client consumes that chunk, signs it with the key unlocked by the
   * first non-empty password typed, and replies `signature,nonce`; the
   * server's check of that reply then answers whether the signature verifies,
   * provided neither the signature text nor the nonce holds a comma.
   */
  lemma Handshake(keys: Keys, m: Machine, nonce: string, more: seq<string>, verify: (string, string) -> bool)
    requires m.pending == [nonce] + more
    requires exists i :: 0 <= i < |m.typed| && m.typed[i] != ""
    ensures var o := Scan(keys, m, Session.SendCmd(AuthWait));
            var e := ReadLine(m.typed).value;
            var sig := keys.sign(e.line, nonce);
            && o.Ok? && o.m.state == NOP && o.m.pending == more && o.m.typed == m.typed[e.used..]
            && o.m.sent == m.sent + [Text(Session.Reply(sig, nonce))]
            && (',' !in sig && ',' !in nonce ==>
                  Session.Auth(nonce, o.m.sent[|m.sent|].text, verify) == Success(verify(sig, nonce)))
  {
    ScanFrame(keys, m, AuthWait, "");
    assert Frame(AuthWait) + "" == Frame(AuthWait);
    var e := ReadLine(m.typed).value;
    var sig := keys.sign(e.line, nonce);
    if ',' !in sig && ',' !in nonce {
      Session.AuthOfHonestReply(sig, nonce, verify);
    }
  }

  /**
   * When the frame and the nonce written by `challnge` arrive in one chunk,
   * the client signs the NEXT chunk instead, and the nonce's characters that
   * follow the frame are dropped as literal text in NOP.
   */
  lemma CoalescedChallengeSignsNextChunk(keys: Keys, m: Machine, nonce: string, next: string, more: seq<string>)
    requires Prefix !in nonce
    requires m.pending == [next] + more
    requires exists i :: 0 <= i < |m.typed| && m.typed[i] != ""
    ensures var o := Scan(keys, m, Session.Challenge(nonce));
            var e := ReadLine(m.typed).value;
            && o.Ok? && o.m.state == NOP && o.m.shown == m.shown && o.m.pending == more
            && o.m.sent == m.sent + [Text(Session.Reply(keys.sign(e.line, next), next))]
  {
    ScanFrame(keys, m, AuthWait, nonce);
    var o := Apply(keys, m, AuthWait);
    ScanPlainText(keys, o.m, nonce);
  }

  /** With nothing further to receive, the coalesced challenge leaves the client waiting in KEYWAIT. */
  lemma CoalescedChallengeBlocks(keys: Keys, m: Machine, nonce: string)
    requires m.pending == []
    ensures Scan(keys, m, Session.Challenge(nonce)) == Blocked(m.(state := KEYWAIT))
  {
    ScanFrame(keys, m, AuthWait, nonce);
  }
}
