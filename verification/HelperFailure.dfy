/** How the native helper fails: the one line it prints on standard error, and its exit status. */
module HelperFailure {
  import opened Bytes
  import opened Unicode
  import HelperWire

  /** The first argument of `fail_with`. */
  datatype Code = Argument | Root | Resolution | Unsupported | State | Io | Limit | Content | Uncertain

  function CodeText(c: Code): (r: seq<byte>) {
    match c
    case Argument => Ascii("ARGUMENT")
    case Root => Ascii("ROOT")
    case Resolution => Ascii("RESOLUTION")
    case Unsupported => Ascii("UNSUPPORTED")
    case State => Ascii("STATE")
    case Io => Ascii("IO")
    case Limit => Ascii("LIMIT")
    case Content => Ascii("CONTENT")
    case Uncertain => Ascii("UNCERTAIN")
  }

  /** One call of `fail_with`. */
  datatype Failure = Failure(code: Code, detail: seq<byte>)

  /** `fail_with(code, "...")` */
  predicate Says(f: Failure, code: Code, detail: string) { IsAscii(detail) && f == Failure(code, Ascii(detail)) }

  /** `fail_errno(code)`: the detail is the number in `errno`. */
  predicate SaysErrno(f: Failure, code: Code) { f.code == code && HelperWire.Numeral(f.detail) }

  function ErrorLine(started: bool, f: Failure): (r: seq<byte>) {
    Ascii("ERR\t") + CodeText(if started then Uncertain else f.code) + [HelperWire.TAB] + f.detail + [HelperWire.LF]
  }

  function ExitStatus(started: bool): int { if started then 20 else 10 }

  /** What the adapter looks for at the front of standard error. */
  function UncertainPrefix(): (r: seq<byte>) { Ascii("ERR\tUNCERTAIN\t") }

  /** The line is an uncertain one exactly when the effect had started or the call itself says so. */
  lemma UncertainIff(started: bool, f: Failure)
    ensures UncertainPrefix() <= ErrorLine(started, f) <==> started || f.code.Uncertain?
  {
    var code := CodeText(if started then Uncertain else f.code);
    var tail := [HelperWire.TAB] + f.detail + [HelperWire.LF];
    var whole := ErrorLine(started, f);
    assert whole == Ascii("ERR\t") + (code + tail);
    CodesDiffer(if started then Uncertain else f.code, tail);
    PrefixParts(code + tail);
  }

  lemma PrefixParts(rest: seq<byte>)
    ensures UncertainPrefix() <= Ascii("ERR\t") + rest <==> Ascii("UNCERTAIN\t") <= rest
  {
    var a, b := Ascii("ERR\t"), Ascii("UNCERTAIN\t");
    assert UncertainPrefix() == a + b;
    if b <= rest {
      assert rest == b + rest[|b|..];
      assert a + rest == (a + b) + rest[|b|..];
    }
    if a + b <= a + rest {
      assert rest == (a + rest)[|a|..];
      assert (a + rest)[..|a + b|] == a + b;
      assert rest[..|b|] == (a + b)[|a|..] == b;
    }
  }

  lemma CodesDiffer(c: Code, tail: seq<byte>)
    requires |tail| >= 1 && tail[0] == HelperWire.TAB
    ensures Ascii("UNCERTAIN\t") <= CodeText(c) + tail <==> c.Uncertain?
  {
    var text, b := CodeText(c), Ascii("UNCERTAIN\t");
    var whole := text + tail;
    if c.Uncertain? {
      assert b == text + [tail[0]];
      assert whole[..|b|] == b;
    } else {
      assert whole[0] == text[0];
      if c.Unsupported? { assert whole[2] == text[2] && text[2] == 'S' as int && b[2] == 'C' as int; }
      assert b[0] == 'U' as int;
    }
  }

  /** Every such line is plain ASCII, so the adapter decodes it to itself. */
  lemma LineIsAscii(started: bool, f: Failure)
    requires AllAscii(f.detail)
    ensures AllAscii(ErrorLine(started, f))
  {
    CodeIsAscii(if started then Uncertain else f.code);
  }

  lemma CodeIsAscii(c: Code)
    ensures AllAscii(CodeText(c))
  {
  }
}
