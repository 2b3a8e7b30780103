/** Whole runs of the SHA-1 interface: any sequence of Reset, Input and Result calls. */
module Sha1Runs {
  import opened Sha1Spec
  import Sha1

  datatype Op = Reset | Input(octets: seq<Octet>) | Result

  function Step(s: Stream, op: Op): Stream {
    match op
    case Reset => FRESH
    case Input(octets) => Absorb(s, octets)
    case Result => Finish(s)
  }

  function Run(s: Stream, ops: seq<Op>): Stream {
    if ops == [] then s
    else Step(Run(s, ops[..|ops| - 1]), ops[|ops| - 1])
  }

  function Flatten(chunks: seq<seq<Octet>>): seq<Octet> {
    if chunks == [] then []
    else Flatten(chunks[..|chunks| - 1]) + chunks[|chunks| - 1]
  }

  /** The stream after a reset and an Input for each piece. */
  function AbsorbAll(pieces: seq<seq<Octet>>): Stream {
    if pieces == [] then FRESH
    else Absorb(AbsorbAll(pieces[..|pieces| - 1]), pieces[|pieces| - 1])
  }

  /** It holds the concatenation, unless that is too long. */
  lemma {:induction false} PiecesAreAbsorbed(pieces: seq<seq<Octet>>)
    ensures var s := AbsorbAll(pieces);
            && !s.computed
            && (s.corrupted <==> |Flatten(pieces)| >= LIMIT)
            && (!s.corrupted ==> s.absorbed == Flatten(pieces))
  {
    if pieces != [] {
      PiecesAreAbsorbed(pieces[..|pieces| - 1]);
    }
  }

  lemma {:induction false} OneMorePiece(pieces: seq<seq<Octet>>, i: nat)
    requires i < |pieces|
    ensures AbsorbAll(pieces[..i + 1]) == Absorb(AbsorbAll(pieces[..i]), pieces[i])
  {
    assert pieces[..i + 1][..i] == pieces[..i];
  }

  /** A caller that resets the context, feeds it a message in pieces and asks for the result: it gets
      the digest of the concatenation, however the message was cut, and is refused exactly when the
      message is too long. */
  method HashInPieces(context: Sha1.Context, pieces: seq<seq<Octet>>) returns (ok: bool)
    requires context.Shape()
    modifies context, context.digest, context.messageBlock
    ensures context.Valid()
    ensures ok <==> |Flatten(pieces)| < LIMIT
    ensures ok ==> var d := Sha1Spec.Sha1(Flatten(pieces)); context.digest[..] == [d.a, d.b, d.c, d.d, d.e]
  {
    hide Sha1Spec.Sha1, Flatten, Absorb, Sha1.Context.Counted, Sha1.Context.Buffered;
    context.Reset();
    var i := 0;
    assert AbsorbAll(pieces[..0]) == FRESH;
    while i < |pieces|
      invariant i <= |pieces| && context.Valid() && context.stream == AbsorbAll(pieces[..i])
    {
      OneMorePiece(pieces, i);
      context.Input(pieces[i]);
      i := i + 1;
    }
    assert pieces[..i] == pieces;
    PiecesAreAbsorbed(pieces);
    ok := context.Result();
  }

  lemma AbsorbTwo(first: seq<Octet>, second: seq<Octet>)
    ensures var s := Absorb(Absorb(FRESH, first), second);
            && !s.computed
            && (s.corrupted <==> |first + second| >= LIMIT)
            && (!s.corrupted ==> s.absorbed == first + second)
  {
  }

  /** The digest of the authentication reply: the salt, then the key. */
  method SaltedDigest(context: Sha1.Context, salt: seq<Octet>, key: seq<Octet>) returns (ok: bool)
    requires context.Shape()
    modifies context, context.digest, context.messageBlock
    ensures ok <==> |salt + key| < LIMIT
    ensures ok ==> var d := Sha1Spec.Sha1(salt + key); context.digest[..] == [d.a, d.b, d.c, d.d, d.e]
  {
    hide Sha1Spec.Sha1, Absorb, Sha1.Context.Counted, Sha1.Context.Buffered;
    context.Reset();
    context.Input(salt);
    context.Input(key);
    AbsorbTwo(salt, key);
    ok := context.Result();
  }

  /** Any sequence of calls on a context, or on one as declared if the first is a reset: what it stands for goes
      through exactly the run. */
  method Perform(context: Sha1.Context, ops: seq<Op>)
    requires context.Shape() && (context.Valid() || (ops != [] && ops[0] == Reset))
    modifies context, context.digest, context.messageBlock
    ensures context.Valid() && context.stream == Run(old(context.stream), ops)
  {
    hide Step, Absorb, Finish, Sha1.Context.Counted, Sha1.Context.Buffered, Sha1.Context.Delivered;
    var i := 0;
    while i < |ops|
      invariant i <= |ops| && context.Shape() && (context.Valid() || (i == 0 < |ops| && ops[0] == Reset))
      invariant context.stream == Run(old(context.stream), ops[..i])
    {
      assert ops[..i + 1][..i] == ops[..i];
      Call(context, ops[i]);
      i := i + 1;
    }
    assert ops[..i] == ops;
  }

  method Call(context: Sha1.Context, op: Op)
    requires context.Shape() && (context.Valid() || op == Reset)
    modifies context, context.digest, context.messageBlock
    ensures context.Valid() && context.stream == Step(old(context.stream), op)
  {
    hide Absorb, Finish, Sha1.Context.Counted, Sha1.Context.Buffered, Sha1.Context.Delivered;
    match op
    case Reset => context.Reset();
    case Input(octets) => context.Input(octets);
    case Result => var ok := context.Result();
  }

  // ---------- What every run keeps ----------

  /** The octets given to Input before the first Result. */
  function Taken(ops: seq<Op>): seq<Octet> {
    if ops == [] then []
    else
      var before, last := ops[..|ops| - 1], ops[|ops| - 1];
      if last.Input? && Result !in before then Taken(before) + last.octets else Taken(before)
  }

  /** A nonempty Input after a Result. */
  ghost predicate LateInput(ops: seq<Op>) {
    exists i, j :: 0 <= i < j < |ops| && ops[i] == Result && ops[j].Input? && ops[j].octets != []
  }

  /** After a reset, the context is corrupted exactly if too much was given before a result or
      anything at all after one; otherwise it holds precisely what was given. */
  lemma {:induction false} Corruption(ops: seq<Op>)
    requires Reset !in ops
    ensures var s := Run(FRESH, ops);
            && (s.corrupted <==> |Taken(ops)| >= LIMIT || LateInput(ops))
            && (!s.corrupted ==> s.absorbed == Taken(ops) && (s.computed <==> Result in ops))
  {
    if ops != [] {
      var before, last := ops[..|ops| - 1], ops[|ops| - 1];
      assert ops == before + [last];
      Corruption(before);
      if LateInput(before) {
        var i, j :| 0 <= i < j < |before| && before[i] == Result && before[j].Input? && before[j].octets != [];
        assert ops[i] == Result && ops[j].Input? && ops[j].octets != [];
      }
      if last.Input? && last.octets != [] && Result in before {
        var i :| 0 <= i < |before| && before[i] == Result;
        assert ops[i] == Result && ops[|ops| - 1].Input?;
      }
    }
  }

  lemma {:induction false} RunAppend(s: Stream, first: seq<Op>, second: seq<Op>)
    ensures Run(s, first + second) == Run(Run(s, first), second)
    decreases |second|
  {
    if second == [] {
      assert first + second == first;
    } else {
      var ops := first + second;
      assert ops[..|ops| - 1] == first + second[..|second| - 1];
      RunAppend(s, first, second[..|second| - 1]);
    }
  }

  /** Corruption lasts until the next reset, and nothing before that reset matters after it. */
  lemma {:induction false} CorruptionLasts(s: Stream, ops: seq<Op>)
    requires s.corrupted && Reset !in ops
    ensures Run(s, ops).corrupted
  {
    if ops != [] {
      assert ops == ops[..|ops| - 1] + [ops[|ops| - 1]];
      CorruptionLasts(s, ops[..|ops| - 1]);
    }
  }

  lemma {:induction false} ResetForgets(s: Stream, before: seq<Op>, after: seq<Op>)
    ensures Run(s, before + [Reset] + after) == Run(FRESH, after)
  {
    RunAppend(s, before + [Reset], after);
    RunAppend(s, before, [Reset]);
    assert [Reset][..0] == [];
  }

  /** Any number of further results changes nothing. */
  lemma {:induction false} ResultRepeats(s: Stream, times: nat)
    ensures Run(Finish(s), seq(times, _ => Result)) == Finish(s)
  {
    if times > 0 {
      var ops := seq(times, _ => Result);
      assert ops[..times - 1] == seq(times - 1, _ => Result);
      ResultRepeats(s, times - 1);
    }
  }
}
