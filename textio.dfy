/** A text stream that is only ever appended to (an open file or standard output), and the
    newline-terminated line output that both search tools write to it. */
module TextIO {
  import opened Strings

  /** An output stream: everything written so far. */
  class TextStream {
    var text: string

    constructor ()
      ensures text == ""
    {
      text := "";
    }

    /** `fp.write(s)` */
    method Write(s: string)
      modifies this
      ensures text == old(text) + s
    {
      text := text + s;
    }
  }

  /** The text of writing each line followed by "\n", in order. */
  function Lines(ls: seq<string>): string
    decreases |ls|
  {
    if ls == [] then "" else ls[0] + "\n" + Lines(ls[1..])
  }

  /** Appending one more line to the output. */
  lemma {:induction false} LinesSnoc(ls: seq<string>, l: string)
    ensures Lines(ls + [l]) == Lines(ls) + l + "\n"
    decreases |ls|
  {
    if ls == [] {
      assert [l][1..] == [];
    } else {
      assert (ls + [l])[1..] == ls[1..] + [l];
      LinesSnoc(ls[1..], l);
    }
  }

  /** The output is the lines joined by newlines, with one final newline. */
  lemma {:induction false} LinesAsJoin(ls: seq<string>)
    ensures Lines(ls) == Join(ls + [""], "\n")
    decreases |ls|
  {
    if ls != [] {
      LinesAsJoin(ls[1..]);
      assert (ls + [""])[1..] == ls[1..] + [""];
    }
  }

  /** When no line contains a newline, cutting the output at newlines gives the lines back,
      followed by the empty text after the last newline. */
  lemma LinesSplit(ls: seq<string>)
    requires forall i :: 0 <= i < |ls| ==> '\n' !in ls[i]
    ensures Split(Lines(ls), '\n') == ls + [""]
  {
    LinesAsJoin(ls);
    forall p | p in ls + [""] ensures '\n' !in p {
      if p in ls {
        var i :| 0 <= i < |ls| && ls[i] == p;
      }
    }
    SplitJoin(ls + [""], '\n');
  }
}
