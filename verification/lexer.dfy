/**
 * A stream of characters read as the protocol reads it: literal characters,
 * and control frames introduced by the marker. This is the reference
 * classification against which the client's character-by-character scan is
 * proved equivalent.
 */
module Lexer {
  import opened Wrappers
  import opened CtrlCodes

  /** One unit of the stream. */
  datatype Token = Lit(ch: char) | Ctrl(code: CtrlCode)

  /** Why a marker did not start a well-formed frame. */
  datatype FrameFault =
    | Truncated             // fewer than three characters follow the marker
    | Unknown(text: string) // the three characters are not a control code

  /** The tokens read before the stream ended or a malformed frame stopped the reading. */
  datatype Lexed = Lexed(tokens: seq<Token>, fault: Option<FrameFault>)

  /** The characters that stand for a token sequence. */
  function Unlex(tokens: seq<Token>): string
    decreases |tokens|
  {
    if tokens == [] then ""
    else
      (match tokens[0]
       case Lit(c) => [c]
       case Ctrl(code) => Frame(code))
      + Unlex(tokens[1..])
  }

  /** A token sequence that holds no literal marker. */
  predicate Unambiguous(tokens: seq<Token>)
  {
    forall i :: 0 <= i < |tokens| ==> tokens[i] != Lit(Prefix)
  }

  /**
   * Classifies `s`. The tokens read always spell a prefix of `s`, and all of
   * `s` when no fault stopped the reading; no literal token is a marker.
   */
  function Lex(s: string): (r: Lexed)
    ensures Unlex(r.tokens) <= s
    ensures r.fault.None? ==> Unlex(r.tokens) == s
    ensures Unambiguous(r.tokens)
    decreases |s|
  {
    if s == [] then Lexed([], None)
    else if s[0] != Prefix then
      var rest := Lex(s[1..]);
      assert Unlex([Lit(s[0])] + rest.tokens) == [s[0]] + Unlex(rest.tokens) by {
        assert ([Lit(s[0])] + rest.tokens)[1..] == rest.tokens;
      }
      assert s == [s[0]] + s[1..];
      Lexed([Lit(s[0])] + rest.tokens, rest.fault)
    else if |s| < 1 + CodeWidth then Lexed([], Some(Truncated))
    else
      match Decode(s[1..1 + CodeWidth])
      case None => Lexed([], Some(Unknown(s[1..1 + CodeWidth])))
      case Some(code) =>
        var rest := Lex(s[1 + CodeWidth..]);
        assert Unlex([Ctrl(code)] + rest.tokens) == Frame(code) + Unlex(rest.tokens) by {
          assert ([Ctrl(code)] + rest.tokens)[1..] == rest.tokens;
        }
        assert Frame(code) == s[..1 + CodeWidth] by {
          assert Frame(code)[1..] == s[1..1 + CodeWidth];
        }
        assert s == s[..1 + CodeWidth] + s[1 + CodeWidth..];
        Lexed([Ctrl(code)] + rest.tokens, rest.fault)
  }

  /**
   * The reading stopped at position `k` of `s` with fault `f`: a marker sits
   * there, followed by fewer than three characters exactly when the fault is
   * `Truncated`, and otherwise by three characters that are no code.
   */
  predicate FaultAt(s: string, k: nat, f: FrameFault)
  {
    && k < |s| && s[k] == Prefix
    && (f.Truncated? <==> |s| - k < 1 + CodeWidth)
    && (f.Unknown? ==> |s| - k >= 1 + CodeWidth && f.text == s[k + 1..k + 1 + CodeWidth] && Decode(f.text).None?)
  }

  /** A fault found in a suffix of `s` is found at the shifted position of `s`. */
  lemma FaultShift(s: string, j: nat, k: nat, f: FrameFault)
    requires j <= |s| && FaultAt(s[j..], k, f)
    ensures FaultAt(s, j + k, f)
  {
    assert s[j..][k] == s[j + k];
    if f.Unknown? {
      assert s[j..][k + 1..k + 1 + CodeWidth] == s[j + k + 1..j + k + 1 + CodeWidth];
    }
  }

  /**
   * A reading that stops early stops right after the characters its tokens
   * spell, at a malformed frame, and reports which way the frame is malformed.
   */
  lemma {:induction false} LexFault(s: string)
    ensures Lex(s).fault.Some? ==> FaultAt(s, |Unlex(Lex(s).tokens)|, Lex(s).fault.value)
    decreases |s|
  {
    if s != [] {
      if s[0] != Prefix {
        var rest := Lex(s[1..]);
        LexFault(s[1..]);
        assert ([Lit(s[0])] + rest.tokens)[1..] == rest.tokens;
        if rest.fault.Some? {
          FaultShift(s, 1, |Unlex(rest.tokens)|, rest.fault.value);
        }
      } else if |s| >= 1 + CodeWidth && Decode(s[1..1 + CodeWidth]).Some? {
        var code := Decode(s[1..1 + CodeWidth]).value;
        var rest := Lex(s[1 + CodeWidth..]);
        LexFault(s[1 + CodeWidth..]);
        assert ([Ctrl(code)] + rest.tokens)[1..] == rest.tokens;
        if rest.fault.Some? {
          FaultShift(s, 1 + CodeWidth, |Unlex(rest.tokens)|, rest.fault.value);
        }
      }
    }
  }

  /** Spelling out an unambiguous token sequence and reading it back gives the tokens again. */
  lemma {:induction false} LexUnlex(tokens: seq<Token>)
    requires Unambiguous(tokens)
    ensures Lex(Unlex(tokens)) == Lexed(tokens, None)
    decreases |tokens|
  {
    if tokens != [] {
      var s := Unlex(tokens);
      var tail := Unlex(tokens[1..]);
      LexUnlex(tokens[1..]);
      match tokens[0]
      case Lit(c) =>
        assert s == [c] + tail;
        assert s[1..] == tail;
        assert tokens == [Lit(c)] + tokens[1..];
      case Ctrl(code) =>
        assert s == Frame(code) + tail;
        assert s[1..1 + CodeWidth] == Frame(code)[1..];
        assert s[1 + CodeWidth..] == tail;
        assert tokens == [Ctrl(code)] + tokens[1..];
    }
  }

  /** The literal tokens of a piece of plain text. */
  function Literals(s: string): seq<Token>
    decreases |s|
  {
    if s == [] then [] else [Lit(s[0])] + Literals(s[1..])
  }

  /** Text without a marker is read as literal characters only, one per character. */
  lemma {:induction false} LexPlainText(s: string)
    requires Prefix !in s
    ensures Lex(s) == Lexed(Literals(s), None)
    decreases |s|
  {
    if s != [] {
      LexPlainText(s[1..]);
    }
  }

  /** A frame is read as exactly one control token. */
  lemma LexFrame(c: CtrlCode)
    ensures Lex(Frame(c)) == Lexed([Ctrl(c)], None)
  {
    assert Frame(c)[1 + CodeWidth..] == [];
  }
}
