/** The terminal writer that turns LF into CRLF (`os/sys.go`). */
module StdoutWriter {
  import opened GoBytes

  const CRLF: seq<byte> := [CR, LF]

  /** The text with each LF replaced by CRLF. */
  function Translated(s: seq<byte>): seq<byte> {
    if s == [] then [] else (if s[0] == LF then CRLF else [s[0]]) + Translated(s[1..])
  }

  /** Reads a translated text back. */
  function Untranslated(s: seq<byte>): seq<byte> {
    if s == [] then []
    else if |s| >= 2 && s[0] == CR && s[1] == LF then [LF] + Untranslated(s[2..])
    else [s[0]] + Untranslated(s[1..])
  }

  lemma {:induction false} TranslatedConcat(a: seq<byte>, b: seq<byte>)
    ensures Translated(a + b) == Translated(a) + Translated(b)
  {
    if a == [] {
      assert a + b == b;
    } else {
      assert (a + b)[1..] == a[1..] + b;
      TranslatedConcat(a[1..], b);
    }
  }

  lemma {:induction false} TranslatedPlain(s: seq<byte>)
    requires LF !in s
    ensures Translated(s) == s
  {
    if s != [] {
      TranslatedPlain(s[1..]);
      assert s == [s[0]] + s[1..];
    }
  }

  /** The translation loses nothing: two texts with the same translation are equal. */
  lemma {:induction false} TranslationReadsBack(s: seq<byte>)
    ensures Untranslated(Translated(s)) == s
  {
    if s != [] {
      var t := Translated(s[1..]);
      TranslationReadsBack(s[1..]);
      if s[0] == LF {
        assert (CRLF + t)[2..] == t;
      } else {
        assert ([s[0]] + t)[1..] == t;
        if |s| > 1 {
          assert t[0] == (if s[1] == LF then CR else s[1]);
        }
      }
      assert [s[0]] + s[1..] == s;
    }
  }

  predicate NoFaults(plan: seq<Option<nat>>) {
    forall i :: 0 <= i < |plan| ==> plan[i].None?
  }

  /** The underlying writer. Each call follows the next entry of `plan`: accept everything, or take
      at most k bytes and report an error. Past the plan every call succeeds. */
  class Inner {
    var out: seq<byte>
    var plan: seq<Option<nat>>

    constructor (plan: seq<Option<nat>>)
      ensures out == [] && this.plan == plan
    {
      out := [];
      this.plan := plan;
    }

    method Write(p: seq<byte>) returns (n: nat, ok: bool)
      modifies this
      ensures n <= |p| && out == old(out) + p[..n]
      ensures ok ==> n == |p|
      ensures NoFaults(old(plan)) ==> ok && NoFaults(plan)
    {
      var fault := if plan == [] then None else plan[0];
      plan := if plan == [] then [] else plan[1..];
      match fault {
        case None =>
          n, ok := |p|, true;
        case Some(k) =>
          n, ok := if k < |p| then k else |p|, false;
      }
      out := out + p[..n];
    }
  }

  /** `bytes.IndexByte(buf, '\n')`. */
  method IndexLF(buf: seq<byte>) returns (i: int)
    ensures -1 <= i < |buf|
    ensures i >= 0 ==> buf[i] == LF && LF !in buf[..i]
    ensures i < 0 ==> LF !in buf
  {
    i := 0;
    while i < |buf|
      invariant 0 <= i <= |buf|
      invariant LF !in buf[..i]
    {
      if buf[i] == LF {
        return;
      }
      i := i + 1;
    }
    i := -1;
  }

  /** `stdoutWrapper.Write`. Whatever the inner writer does, what it received is the translation of
      the first n bytes plus, when the CRLF itself was cut, a piece of that CRLF; n counts input
      bytes, and without an inner failure all of them. */
  method Write(w: Inner, text: seq<byte>) returns (n: nat, ok: bool, ghost cut: nat)
    modifies w
    ensures n <= |text| && cut <= 2
    ensures w.out == old(w.out) + Translated(text[..n]) + CRLF[..cut]
    ensures cut > 0 ==> !ok && n < |text| && text[n] == LF
    ensures ok ==> n == |text|
    ensures NoFaults(old(w.plan)) ==> ok
  {
    hide Translated, NoFaults;
    var buf := text;
    n, cut := 0, 0;
    TranslatedPlain(text[..0]);
    while |buf| > 0
      invariant n <= |text| && buf == text[n..]
      invariant w.out == old(w.out) + Translated(text[..n])
      invariant NoFaults(old(w.plan)) ==> NoFaults(w.plan)
      decreases |buf|
    {
      var i := IndexLF(buf);
      var todo := if i >= 0 then i else |buf|;
      assert LF !in buf[..todo];
      var nn, good := w.Write(buf[..todo]);
      AppendPlain(text, n, buf, todo, nn);
      assert w.out == old(w.out) + Translated(text[..n + nn]);
      n := n + nn;
      if !good {
        return n, false, 0;
      }
      buf := buf[todo..];
      if i >= 0 {
        var k, fine := w.Write(CRLF);
        if !fine {
          return n, false, k;
        }
        AppendLF(text, n);
        assert w.out == old(w.out) + Translated(text[..n + 1]);
        n := n + 1;
        buf := buf[1..];
      }
    }
    assert text[..n] == text;
    return n, true, 0;
  }

  lemma AppendPlain(text: seq<byte>, n: nat, buf: seq<byte>, todo: nat, nn: nat)
    requires n <= |text| && buf == text[n..] && nn <= todo <= |buf|
    requires LF !in buf[..todo]
    ensures Translated(text[..n + nn]) == Translated(text[..n]) + buf[..todo][..nn]
  {
    var taken := buf[..todo][..nn];
    assert text[..n + nn] == text[..n] + taken;
    TranslatedConcat(text[..n], taken);
    TranslatedPlain(taken);
  }

  lemma AppendLF(text: seq<byte>, n: nat)
    requires n < |text| && text[n] == LF
    ensures Translated(text[..n + 1]) == Translated(text[..n]) + CRLF
  {
    assert text[..n + 1] == text[..n] + [LF];
    TranslatedConcat(text[..n], [LF]);
    assert Translated([LF]) == CRLF + Translated([]);
  }

  /** The pieces put back together. */
  function Concat(pieces: seq<seq<byte>>): seq<byte> {
    if pieces == [] then [] else pieces[0] + Concat(pieces[1..])
  }

  /** What successive successful writes of the pieces send. */
  function TranslatedPieces(pieces: seq<seq<byte>>): seq<byte> {
    if pieces == [] then [] else Translated(pieces[0]) + TranslatedPieces(pieces[1..])
  }

  /** Splitting a successful write into pieces does not change the output. */
  lemma {:induction false} SplittingIsInvisible(pieces: seq<seq<byte>>)
    ensures TranslatedPieces(pieces) == Translated(Concat(pieces))
  {
    if pieces != [] {
      SplittingIsInvisible(pieces[1..]);
      TranslatedConcat(pieces[0], Concat(pieces[1..]));
    }
  }
}
