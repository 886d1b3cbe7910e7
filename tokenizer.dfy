/** The chunk packer that breaks over-long text into pieces short enough for
    the speech engine: phrase groups are collapsed into single (text, tag)
    units, and the units are packed greedily, left to right, into chunks of
    fewer than MAXCHARS characters. */
module Tokenizer {
  import opened Wrappers
  import opened Strings

  /** The longest text the speech engine is given in one piece. */
  const MAXCHARS: nat := 100

  /** A word, or a consolidated phrase, with its part-of-speech tag. */
  type Pair = (string, string)

  /** One entry of the phrase chunker's output: an ungrouped tagged word, or
      a phrase group (noun phrase, verb phrase, ...) of tagged words. */
  datatype Node = Leaf(word: string, tag: string) | Phrase(leaves: seq<Pair>)

  /** The texts of the units, in order. */
  function Texts(units: seq<Pair>): seq<string>
  {
    seq(|units|, i requires 0 <= i < |units| => units[i].0)
  }

  lemma TextsAppend(xs: seq<Pair>, ys: seq<Pair>)
    ensures Texts(xs + ys) == Texts(xs) + Texts(ys)
  {
  }

  /** Concatenation of a sequence of sequences. */
  function Concat<T>(ss: seq<seq<T>>): seq<T>
    decreases |ss|
  {
    if ss == [] then [] else ss[0] + Concat(ss[1..])
  }

  lemma {:induction false} ConcatSnoc<T>(ss: seq<seq<T>>, s: seq<T>)
    ensures Concat(ss + [s]) == Concat(ss) + s
    decreases |ss|
  {
    if ss != [] {
      assert (ss + [s])[1..] == ss[1..] + [s];
      ConcatSnoc(ss[1..], s);
    }
  }

  // ---------------------------------------------------------------------
  // consolidate

  /** The tagged words a node stands for, in order. */
  function Leaves(n: Node): seq<Pair>
  {
    match n
    case Leaf(w, t) => [(w, t)]
    case Phrase(ls) => ls
  }

  /** The chunker's output read back as the tagged words it groups. */
  function Flatten(nodes: seq<Node>): seq<Pair>
    decreases |nodes|
  {
    if nodes == [] then [] else Leaves(nodes[0]) + Flatten(nodes[1..])
  }

  /** Every phrase group holds at least one word (an empty one has no last
      leaf to take the tag from). */
  predicate WellFormed(n: Node)
  {
    n.Phrase? ==> n.leaves != []
  }

  predicate AllWellFormed(nodes: seq<Node>)
  {
    forall i :: 0 <= i < |nodes| ==> WellFormed(nodes[i])
  }

  /** The (text, tag) unit a node collapses into: a word stays as it is; a
      phrase becomes its words joined by single spaces, tagged with the tag
      of its last word. */
  function Unit(n: Node): Pair
    requires WellFormed(n)
  {
    match n
    case Leaf(w, t) => (w, t)
    case Phrase(ls) => (Join(" ", Texts(ls)), ls[|ls| - 1].1)
  }

  function Units(nodes: seq<Node>): seq<Pair>
    requires AllWellFormed(nodes)
  {
    seq(|nodes|, i requires 0 <= i < |nodes| => Unit(nodes[i]))
  }

  /** Collapses every phrase group of `a` in place into one (text, tag) pair;
      ungrouped words are left untouched. */
  method Consolidate(a: array<Node>)
    requires forall i :: 0 <= i < a.Length ==> WellFormed(a[i])
    modifies a
    ensures forall i :: 0 <= i < a.Length ==> old(a[i]).Leaf? ==> a[i] == old(a[i])
    ensures forall i :: 0 <= i < a.Length && old(a[i]).Phrase? ==>
              var ls := old(a[i]).leaves;
              ls != [] && a[i] == Leaf(Join(" ", Texts(ls)), ls[|ls| - 1].1)
  {
    for i := 0 to a.Length
      invariant forall j :: 0 <= j < i ==> a[j] == Leaf(Unit(old(a[j])).0, Unit(old(a[j])).1)
      invariant forall j :: i <= j < a.Length ==> a[j] == old(a[j])
    {
      if a[i].Phrase? {
        var ls := a[i].leaves;
        a[i] := Leaf(Join(" ", Texts(ls)), ls[|ls| - 1].1);
      }
    }
  }

  /** Consolidation loses no word and reorders nothing: the unit texts joined
      by spaces are the chunker's words joined by spaces. */
  lemma {:induction false} ConsolidateKeepsWords(nodes: seq<Node>)
    requires AllWellFormed(nodes)
    ensures |Units(nodes)| == |nodes|
    ensures Join(" ", Texts(Units(nodes))) == Join(" ", Texts(Flatten(nodes)))
    decreases |nodes|
  {
    if nodes != [] {
      var rest := nodes[1..];
      ConsolidateKeepsWords(rest);
      assert Units(nodes) == [Unit(nodes[0])] + Units(rest);
      var head := Leaves(nodes[0]);
      assert Join(" ", Texts(head)) == Unit(nodes[0]).0 by {
        if nodes[0].Leaf? {
          assert Texts(head) == [nodes[0].word];
        }
      }
      TextsAppend(head, Flatten(rest));
      TextsAppend([Unit(nodes[0])], Units(rest));
      if rest != [] {
        FlattenNonEmpty(rest);
        JoinAppend(" ", Texts(head), Texts(Flatten(rest)));
        JoinAppend(" ", Texts([Unit(nodes[0])]), Texts(Units(rest)));
      } else {
        assert Flatten(nodes) == head;
      }
    }
  }

  lemma FlattenNonEmpty(nodes: seq<Node>)
    requires AllWellFormed(nodes) && nodes != []
    ensures Flatten(nodes) != []
  {
  }

  // ---------------------------------------------------------------------
  // reconstruct

  /** What a run of units costs against the bound: each unit counts its
      length plus one for a joining space, the last unit included. */
  function Cost(units: seq<Pair>): nat
    decreases |units|
  {
    if units == [] then 0 else |units[0].0| + 1 + Cost(units[1..])
  }

  lemma {:induction false} CostAppend(xs: seq<Pair>, ys: seq<Pair>)
    ensures Cost(xs + ys) == Cost(xs) + Cost(ys)
    decreases |xs|
  {
    if xs != [] {
      assert (xs + ys)[0] == xs[0];
      assert (xs + ys)[1..] == xs[1..] + ys;
      CostAppend(xs[1..], ys);
    } else {
      assert xs + ys == ys;
    }
  }

  /** Running totals only grow: a longer prefix costs more. */
  lemma CostPrefix(units: seq<Pair>, j: nat, k: nat)
    requires j <= k <= |units|
    ensures Cost(units[..j]) + Cost(units[j..k]) == Cost(units[..k])
  {
    assert units[..k] == units[..j] + units[j..k];
    CostAppend(units[..j], units[j..k]);
  }

  lemma CostSnoc(units: seq<Pair>, k: nat)
    requires k < |units|
    ensures Cost(units[..k + 1]) == Cost(units[..k]) + |units[k].0| + 1
  {
    CostPrefix(units, k, k + 1);
    assert units[k..k + 1] == [units[k]];
  }

  /** As the source computes it: how many of the first `k` running totals
      of the unit costs stay within MAXCHARS. */
  function CountWithin(units: seq<Pair>, k: nat): nat
    requires k <= |units|
  {
    if k == 0 then 0
    else CountWithin(units, k - 1) + (if Cost(units[..k]) <= MAXCHARS then 1 else 0)
  }

  /** The number of units one packing step takes: the count of running
      totals within MAXCHARS. */
  function Take(units: seq<Pair>): nat
  {
    CountWithin(units, |units|)
  }

  /** `n` units form the longest prefix of `units` that fits the bound:
      they fit, and one more unit would not. */
  predicate LongestFit(units: seq<Pair>, n: nat)
  {
    n <= |units| && Cost(units[..n]) <= MAXCHARS &&
    (n < |units| ==> Cost(units[..n + 1]) > MAXCHARS)
  }

  /** At most one length satisfies LongestFit. */
  lemma LongestFitUnique(units: seq<Pair>, n: nat, m: nat)
    requires LongestFit(units, n) && LongestFit(units, m)
    ensures n == m
  {
    if n < m {
      CostPrefix(units, n + 1, m);
    } else if m < n {
      CostPrefix(units, m + 1, n);
    }
  }

  lemma {:induction false} CountWithinFits(units: seq<Pair>, k: nat)
    requires k <= |units|
    ensures CountWithin(units, k) <= k
    ensures Cost(units[..CountWithin(units, k)]) <= MAXCHARS
    ensures CountWithin(units, k) < k ==> Cost(units[..CountWithin(units, k) + 1]) > MAXCHARS
  {
    if k > 0 {
      CountWithinFits(units, k - 1);
      var c := CountWithin(units, k - 1);
      if Cost(units[..k]) <= MAXCHARS && c < k - 1 {
        CostPrefix(units, c + 1, k);
      }
    }
  }

  /** Counting the running totals within the bound finds exactly the
      longest prefix that fits, because every unit costs at least one. */
  lemma TakeIsLongestFit(units: seq<Pair>)
    ensures LongestFit(units, Take(units))
  {
    CountWithinFits(units, |units|);
  }

  /** Every unit is shorter than MAXCHARS. */
  predicate AllShort(units: seq<Pair>)
  {
    forall i :: 0 <= i < |units| ==> |units[i].0| < MAXCHARS
  }

  /** A short first unit always fits, so a packing step makes progress. */
  lemma TakePositive(units: seq<Pair>)
    requires units != [] && |units[0].0| < MAXCHARS
    ensures 1 <= Take(units) <= |units|
  {
    TakeIsLongestFit(units);
    CostSnoc(units, 0);
  }

  /** A unit of MAXCHARS or more characters is never taken: every step stops
      before it. */
  lemma LongUnitNeverTaken(units: seq<Pair>, i: nat)
    requires i < |units| && |units[i].0| >= MAXCHARS
    ensures Take(units) <= i
  {
    TakeIsLongestFit(units);
    var n := Take(units);
    if n > i {
      CostSnoc(units, i);
      CostPrefix(units, i + 1, n);
    }
  }

  /** Why the source loops forever on a long unit: a step on units that
      hold one takes only the units before it, so the rest is non-empty and
      still holds it; once it is first, a step takes nothing at all. */
  lemma StepKeepsLongUnit(units: seq<Pair>, i: nat)
    requires i < |units| && |units[i].0| >= MAXCHARS
    ensures Take(units) <= i
    ensures var rest := units[Take(units)..];
            rest != [] && |rest[i - Take(units)].0| >= MAXCHARS
    ensures i == 0 ==> units[Take(units)..] == units
  {
    LongUnitNeverTaken(units, i);
  }

  /** The greedy partition of the units into chunks: the longest prefix that
      fits, then the same on the rest. */
  function Segments(units: seq<Pair>): seq<seq<Pair>>
    requires AllShort(units)
    decreases |units|
  {
    if units == [] then []
    else
      TakePositive(units);
      var n := Take(units);
      [units[..n]] + Segments(units[n..])
  }

  /** The text of one chunk: its units joined by single spaces. */
  function Chunk(segment: seq<Pair>): string
  {
    Join(" ", Texts(segment))
  }

  /** The chunks the packer emits for the units. */
  function Pack(units: seq<Pair>): seq<string>
    requires AllShort(units)
  {
    var segments := Segments(units);
    seq(|segments|, i requires 0 <= i < |segments| => Chunk(segments[i]))
  }

  lemma PackStep(units: seq<Pair>)
    requires AllShort(units) && units != []
    ensures 1 <= Take(units) <= |units|
    ensures Pack(units) == [Chunk(units[..Take(units)])] + Pack(units[Take(units)..])
  {
    TakePositive(units);
  }

  /** The greedy partition keeps every unit whole and in order, each chunk
      fits the bound, and each chunk is maximal: the first unit of the next
      chunk would not have fitted. */
  lemma {:induction false} SegmentsPartition(units: seq<Pair>)
    requires AllShort(units)
    ensures Concat(Segments(units)) == units
    ensures forall k :: 0 <= k < |Segments(units)| ==>
              Segments(units)[k] != [] && Cost(Segments(units)[k]) <= MAXCHARS
    ensures forall k :: 0 <= k < |Segments(units)| - 1 ==>
              Cost(Segments(units)[k] + [Segments(units)[k + 1][0]]) > MAXCHARS
    decreases |units|
  {
    if units != [] {
      TakePositive(units);
      TakeIsLongestFit(units);
      var n := Take(units);
      var rest := units[n..];
      SegmentsPartition(rest);
      var segs := Segments(units);
      assert segs == [units[..n]] + Segments(rest);
      assert units == units[..n] + rest;
      if rest != [] {
        TakePositive(rest);
        assert Segments(rest)[0][0] == units[n];
        assert units[..n] + [units[n]] == units[..n + 1];
      }
      assert forall k :: 1 <= k < |segs| ==> segs[k] == Segments(rest)[k - 1];
    }
  }

  /** A chunk is one character shorter than the cost of its units. */
  lemma {:induction false} ChunkLength(segment: seq<Pair>)
    requires segment != []
    ensures |Chunk(segment)| + 1 == Cost(segment)
    decreases |segment|
  {
    if |segment| > 1 {
      ChunkLength(segment[1..]);
      assert Texts(segment)[1..] == Texts(segment[1..]);
    }
  }

  /** Every emitted chunk has at most MAXCHARS - 1 characters. */
  lemma PackBound(units: seq<Pair>)
    requires AllShort(units)
    ensures forall k :: 0 <= k < |Pack(units)| ==> |Pack(units)[k]| < MAXCHARS
  {
    SegmentsPartition(units);
    forall k | 0 <= k < |Pack(units)|
      ensures |Pack(units)[k]| < MAXCHARS
    {
      ChunkLength(Segments(units)[k]);
    }
  }

  /** Joining the chunks with single spaces gives the unit texts joined with
      single spaces. */
  lemma {:induction false} PackJoin(units: seq<Pair>)
    requires AllShort(units)
    ensures Join(" ", Pack(units)) == Join(" ", Texts(units))
    decreases |units|
  {
    if units != [] {
      PackStep(units);
      var n := Take(units);
      var rest := units[n..];
      assert units == units[..n] + rest;
      TextsAppend(units[..n], rest);
      if rest != [] {
        PackJoin(rest);
        PackStep(rest);
        JoinAppend(" ", [Chunk(units[..n])], Pack(rest));
        JoinAppend(" ", Texts(units[..n]), Texts(rest));
      } else {
        assert units[..n] == units;
        assert Pack(rest) == [];
        assert Pack(units) == [Chunk(units)];
      }
    }
  }

  /** The units left after dropping one final "." unit. */
  function Body(units: seq<Pair>): seq<Pair>
    requires units != []
  {
    if units[|units| - 1].0 == "." then units[..|units| - 1] else units
  }

  /** What dropping the final "." removes from the joined text. */
  lemma BodyJoin(units: seq<Pair>)
    requires units != []
    ensures units[|units| - 1].0 != "." ==> Join(" ", Texts(Body(units))) == Join(" ", Texts(units))
    ensures units[|units| - 1].0 == "." ==>
              Join(" ", Texts(units)) ==
              Join(" ", Texts(Body(units))) + (if |units| == 1 then "" else " ") + "."
  {
    var last := |units| - 1;
    if units[last].0 == "." && last > 0 {
      assert units == units[..last] + [units[last]];
      TextsAppend(units[..last], [units[last]]);
      JoinAppend(" ", Texts(units[..last]), Texts([units[last]]));
    }
  }

  /** Packs the units into chunks of fewer than MAXCHARS characters: drops a
      final "." unit, then repeatedly emits the longest fitting prefix of the
      remaining units, joined by spaces. The source fails on an empty list
      and never returns when a unit has MAXCHARS or more characters
      (StepKeepsLongUnit), hence the two preconditions. */
  method Reconstruct(units: seq<Pair>) returns (chunks: seq<string>)
    requires units != []
    requires AllShort(units)
    ensures chunks == Pack(Body(units))
    ensures Join(" ", chunks) == Join(" ", Texts(Body(units)))
    ensures forall k :: 0 <= k < |chunks| ==> |chunks[k]| < MAXCHARS
  {
    chunks := [];
    var rest := units;
    if rest[|rest| - 1].0 == "." {
      rest := rest[..|rest| - 1];
    }
    while |rest| > 0
      invariant AllShort(rest)
      invariant chunks + Pack(rest) == Pack(Body(units))
      decreases |rest|
    {
      PackStep(rest);
      var n := Take(rest);
      chunks := chunks + [Join(" ", Texts(rest[..n]))];
      rest := rest[n..];
    }
    PackJoin(Body(units));
    PackBound(Body(units));
  }

  // ---------------------------------------------------------------------
  // MyTokenizer

  /** Why tokenizing fails where the source raises or hangs. */
  datatype Fault =
    | IndexError  // an empty phrase group, or an empty chunker output: `[-1]` on an empty list
    | NoProgress  // a unit of MAXCHARS or more characters: the packing loop never ends

  /** The library code the tokenizer calls: the speech library's punctuation
      splitter, the word tokenizer, the part-of-speech tagger and the phrase
      chunker. */
  datatype Externals = Externals(
    split: string -> seq<string>,
    words: string -> seq<string>,
    tagger: seq<string> -> seq<Pair>,
    chunker: seq<Pair> -> seq<Node>)

  /** The chunker's grouping of a piece's tagged words. */
  function PieceNodes(piece: string, ext: Externals): seq<Node>
  {
    ext.chunker(ext.tagger(ext.words(piece)))
  }

  /** The output for one ':'-delimited piece of an over-long token. */
  function PieceOutput(piece: string, ext: Externals): Result<seq<string>, Fault>
  {
    if |piece| <= MAXCHARS then Success([piece])
    else
      var nodes := PieceNodes(piece, ext);
      if exists i | 0 <= i < |nodes| :: !WellFormed(nodes[i]) then Failure(IndexError)
      else if nodes == [] then Failure(IndexError)
      else if !AllShort(Units(nodes)) then Failure(NoProgress)
      else Success(Pack(Body(Units(nodes))))
  }

  function PieceStep(ext: Externals): string -> Result<seq<string>, Fault>
  {
    piece => PieceOutput(piece, ext)
  }

  /** The outputs of the steps, concatenated in order, or the first failure. */
  function Flattened(r: Result<seq<seq<string>>, Fault>): Result<seq<string>, Fault>
  {
    match r
    case Failure(e) => Failure(e)
    case Success(outs) => Success(Concat(outs))
  }

  /** The outputs for a run of ':'-delimited pieces. */
  function PiecesOutput(pieces: seq<string>, ext: Externals): Result<seq<string>, Fault>
  {
    Flattened(MapAll(pieces, PieceStep(ext)))
  }

  /** The output for one base token: itself when it is short enough,
      otherwise the outputs of its ':'-delimited pieces. */
  function TokenOutput(token: string, ext: Externals): Result<seq<string>, Fault>
  {
    if |token| <= MAXCHARS then Success([token])
    else PiecesOutput(Split(token, ":"), ext)
  }

  function TokenStep(ext: Externals): string -> Result<seq<string>, Fault>
  {
    token => TokenOutput(token, ext)
  }

  /** The outputs for a run of base tokens. */
  function TokensOutput(tokens: seq<string>, ext: Externals): Result<seq<string>, Fault>
  {
    Flattened(MapAll(tokens, TokenStep(ext)))
  }

  /** The tokenizer's result for a whole text. */
  function Tokenize(text: string, ext: Externals): Result<seq<string>, Fault>
  {
    TokensOutput(ext.split(text), ext)
  }

  /** The phrase-aware chunking of one over-long piece: split it into words,
      tag them, chunk the tags into phrases, consolidate, reconstruct. */
  method PackPiece(piece: string, ext: Externals) returns (r: Result<seq<string>, Fault>)
    requires |piece| > MAXCHARS
    ensures r == PieceOutput(piece, ext)
  {
    var words := ext.words(piece);
    var tagged := ext.tagger(words);
    var nodes := ext.chunker(tagged);
    if exists k | 0 <= k < |nodes| :: !WellFormed(nodes[k]) {
      return Failure(IndexError);
    }
    var a := new Node[|nodes|](k requires 0 <= k < |nodes| => nodes[k]);
    Consolidate(a);
    if a.Length == 0 {
      return Failure(IndexError);
    }
    var consolidated := a[..];
    var units := seq(|consolidated|, k requires 0 <= k < |consolidated| =>
                       (consolidated[k].word, consolidated[k].tag));
    assert units == Units(nodes);
    if !AllShort(units) {
      return Failure(NoProgress);
    }
    var chunks := Reconstruct(units);
    r := Success(chunks);
  }

  /** The handling of one over-long base token: split it on ':', keep short
      pieces as they are and pack the longer ones, in order. */
  method SplitLongToken(token: string, ext: Externals) returns (r: Result<seq<string>, Fault>)
    requires |token| > MAXCHARS
    ensures r == TokenOutput(token, ext)
  {
    var pieces := Split(token, ":");
    var out: seq<string> := [];
    ghost var outs: seq<seq<string>> := [];
    for j := 0 to |pieces|
      invariant MapAll(pieces[..j], PieceStep(ext)) == Success(outs)
      invariant out == Concat(outs)
    {
      MapAllStep(pieces, j, PieceStep(ext));
      var piece := pieces[j];
      var chunks: seq<string>;
      if |piece| <= MAXCHARS {
        chunks := [piece];
      } else {
        var packed := PackPiece(piece, ext);
        if packed.Failure? {
          MapAllPrefixFailure(pieces, j + 1, PieceStep(ext));
          return Failure(packed.error);
        }
        chunks := packed.value;
      }
      out := out + chunks;
      ConcatSnoc(outs, chunks);
      outs := outs + [chunks];
    }
    assert pieces[..|pieces|] == pieces;
    r := Success(out);
  }

  /** Splits `text` into pieces the speech engine accepts: base tokens of at
      most MAXCHARS characters pass through; longer ones are split on ':';
      short pieces pass through; longer pieces are tagged, chunked into
      phrases, consolidated and packed. */
  method MyTokenizer(text: string, ext: Externals) returns (r: Result<seq<string>, Fault>)
    ensures r == Tokenize(text, ext)
  {
    var baseTokens := ext.split(text);
    var tokens: seq<string> := [];
    ghost var outs: seq<seq<string>> := [];
    for i := 0 to |baseTokens|
      invariant MapAll(baseTokens[..i], TokenStep(ext)) == Success(outs)
      invariant tokens == Concat(outs)
    {
      MapAllStep(baseTokens, i, TokenStep(ext));
      var token := baseTokens[i];
      var out: seq<string>;
      if |token| > MAXCHARS {
        var split := SplitLongToken(token, ext);
        if split.Failure? {
          MapAllPrefixFailure(baseTokens, i + 1, TokenStep(ext));
          return Failure(split.error);
        }
        out := split.value;
      } else {
        out := [token];
      }
      tokens := tokens + out;
      ConcatSnoc(outs, out);
      outs := outs + [out];
    }
    assert baseTokens[..|baseTokens|] == baseTokens;
    r := Success(tokens);
  }

  // ---------------------------------------------------------------------
  // properties of the tokenizer as a whole

  lemma {:induction false} ConcatAppend<T>(a: seq<seq<T>>, b: seq<seq<T>>)
    ensures Concat(a + b) == Concat(a) + Concat(b)
    decreases |a|
  {
    if a != [] {
      assert (a + b)[1..] == a[1..] + b;
      ConcatAppend(a[1..], b);
    } else {
      assert a + b == b;
    }
  }

  lemma {:induction false} ConcatSingletons(outs: seq<seq<string>>, xs: seq<string>)
    requires |outs| == |xs| && forall i :: 0 <= i < |xs| ==> outs[i] == [xs[i]]
    ensures Concat(outs) == xs
    decreases |xs|
  {
    if xs != [] {
      ConcatSingletons(outs[1..], xs[1..]);
      assert xs == [xs[0]] + xs[1..];
    }
  }

  /** Every string is at most MAXCHARS long. */
  predicate Bounded(out: seq<string>)
  {
    forall k :: 0 <= k < |out| ==> |out[k]| <= MAXCHARS
  }

  lemma {:induction false} ConcatBounded(outs: seq<seq<string>>)
    requires forall i :: 0 <= i < |outs| ==> Bounded(outs[i])
    ensures Bounded(Concat(outs))
    decreases |outs|
  {
    if outs != [] {
      ConcatBounded(outs[1..]);
    }
  }

  lemma FlattenedBounded<X>(xs: seq<X>, f: X -> Result<seq<string>, Fault>)
    requires forall i :: 0 <= i < |xs| ==> f(xs[i]).Success? ==> Bounded(f(xs[i]).value)
    ensures Flattened(MapAll(xs, f)).Success? ==> Bounded(Flattened(MapAll(xs, f)).value)
  {
    MapAllSuccess(xs, f);
    if MapAll(xs, f).Success? {
      ConcatBounded(MapAll(xs, f).value);
    }
  }

  /** Whatever the libraries return, every string a successful run emits
      has at most MAXCHARS characters: short tokens and pieces have at most
      MAXCHARS, packed chunks fewer. */
  lemma TokenizeBound(text: string, ext: Externals)
    ensures Tokenize(text, ext).Success? ==> Bounded(Tokenize(text, ext).value)
  {
    forall piece: string | PieceOutput(piece, ext).Success?
      ensures Bounded(PieceOutput(piece, ext).value)
    {
      if |piece| > MAXCHARS {
        var nodes := PieceNodes(piece, ext);
        PackBound(Body(Units(nodes)));
      }
    }
    forall token: string | TokenOutput(token, ext).Success?
      ensures Bounded(TokenOutput(token, ext).value)
    {
      if |token| > MAXCHARS {
        FlattenedBounded(Split(token, ":"), PieceStep(ext));
      }
    }
    FlattenedBounded(ext.split(text), TokenStep(ext));
  }

  /** Steps run in order: the output for `xs + ys` is the output for `xs`
      followed by the output for `ys`, and the first failure is reported. */
  lemma FlattenedAppend<X>(xs: seq<X>, ys: seq<X>, f: X -> Result<seq<string>, Fault>)
    ensures Flattened(MapAll(xs + ys, f)) ==
      match Flattened(MapAll(xs, f))
      case Failure(e) => Failure(e)
      case Success(a) =>
        match Flattened(MapAll(ys, f))
        case Failure(e) => Failure(e)
        case Success(b) => Success(a + b)
  {
    MapAllAppend(xs, ys, f);
    if MapAll(xs, f).Success? && MapAll(ys, f).Success? {
      ConcatAppend(MapAll(xs, f).value, MapAll(ys, f).value);
    }
  }

  /** One step alone outputs what that step outputs. */
  lemma FlattenedSingle<X>(x: X, f: X -> Result<seq<string>, Fault>)
    ensures Flattened(MapAll([x], f)) == f(x)
  {
    var single: seq<X> := [x];
    var none: seq<seq<string>> := [];
    MapAllStep(single, 0, f);
    assert single[..1] == single && single[..0] == [];
    if f(x).Success? {
      assert MapAll(single, f) == Success(none + [f(x).value]);
      assert none + [f(x).value] == [f(x).value];
      assert Concat([f(x).value]) == f(x).value by {
        assert [f(x).value][1..] == none;
      }
    }
  }

  /** A step that outputs `[x]` puts `x` in its place between the outputs of
      the steps around it. */
  lemma VerbatimInPlace<X>(xs: seq<X>, x: X, ys: seq<X>, f: X -> Result<seq<string>, Fault>, out: string)
    requires f(x) == Success([out])
    requires Flattened(MapAll(xs, f)).Success? && Flattened(MapAll(ys, f)).Success?
    ensures Flattened(MapAll(xs + [x] + ys, f)) ==
              Success(Flattened(MapAll(xs, f)).value + [out] + Flattened(MapAll(ys, f)).value)
  {
    FlattenedAppend(xs, [x], f);
    FlattenedAppend(xs + [x], ys, f);
    FlattenedSingle(x, f);
  }

  /** Base tokens are processed in order: the output for `xs + ys` is the
      output for `xs` followed by the output for `ys`, and the first failure
      is the one reported. */
  lemma TokensOutputAppend(xs: seq<string>, ys: seq<string>, ext: Externals)
    ensures TokensOutput(xs + ys, ext) ==
      match TokensOutput(xs, ext)
      case Failure(e) => Failure(e)
      case Success(a) =>
        match TokensOutput(ys, ext)
        case Failure(e) => Failure(e)
        case Success(b) => Success(a + b)
  {
    FlattenedAppend(xs, ys, TokenStep(ext));
  }

  /** A base token of at most MAXCHARS characters is emitted unchanged, in
      its place between the outputs of the tokens around it. */
  lemma ShortTokenInPlace(xs: seq<string>, token: string, ys: seq<string>, ext: Externals)
    requires |token| <= MAXCHARS
    requires TokensOutput(xs, ext).Success? && TokensOutput(ys, ext).Success?
    ensures TokensOutput(xs + [token] + ys, ext) ==
              Success(TokensOutput(xs, ext).value + [token] + TokensOutput(ys, ext).value)
  {
    VerbatimInPlace(xs, token, ys, TokenStep(ext), token);
  }

  /** Within an over-long token, a ':'-piece of at most MAXCHARS characters
      (an empty one included) is emitted unchanged, in its place between the
      outputs of the pieces around it, whether those are packed or not. */
  lemma ShortPieceInPlace(xs: seq<string>, piece: string, ys: seq<string>, ext: Externals)
    requires |piece| <= MAXCHARS
    requires PiecesOutput(xs, ext).Success? && PiecesOutput(ys, ext).Success?
    ensures PiecesOutput(xs + [piece] + ys, ext) ==
              Success(PiecesOutput(xs, ext).value + [piece] + PiecesOutput(ys, ext).value)
  {
    VerbatimInPlace(xs, piece, ys, PieceStep(ext), piece);
  }

  /** When every base token is short, the text's base tokens are the output. */
  lemma ShortTokensPassThrough(tokens: seq<string>, ext: Externals)
    requires forall i :: 0 <= i < |tokens| ==> |tokens[i]| <= MAXCHARS
    ensures TokensOutput(tokens, ext) == Success(tokens)
  {
    MapAllSuccess(tokens, TokenStep(ext));
    ConcatSingletons(MapAll(tokens, TokenStep(ext)).value, tokens);
  }

  /** Splitting on ':' loses nothing but the colons: the pieces rejoined
      with ':' give the token back, and no piece holds a colon. */
  lemma {:induction false} ColonPieces(token: string)
    ensures Join(":", Split(token, ":")) == token
    ensures forall i :: 0 <= i < |Split(token, ":")| ==> ':' !in Split(token, ":")[i]
  {
    SplitJoin(token, ":");
    SplitChar(token, ':');
  }

  /** An over-long token whose ':'-pieces are all short is emitted as those
      pieces, verbatim and in order, empty pieces included. */
  lemma ShortPiecesPassThrough(token: string, ext: Externals)
    requires |token| > MAXCHARS
    requires forall i :: 0 <= i < |Split(token, ":")| ==> |Split(token, ":")[i]| <= MAXCHARS
    ensures TokenOutput(token, ext) == Success(Split(token, ":"))
  {
    var pieces := Split(token, ":");
    MapAllSuccess(pieces, PieceStep(ext));
    ConcatSingletons(MapAll(pieces, PieceStep(ext)).value, pieces);
  }

  /** With a tagger that tags every word in order and a chunker that only
      groups tagged words, the chunks of an over-long piece joined by spaces
      are the piece's words joined by spaces, less a final "." unit. */
  lemma LongPieceWords(piece: string, ext: Externals)
    requires |piece| > MAXCHARS
    requires Texts(ext.tagger(ext.words(piece))) == ext.words(piece)
    requires Flatten(PieceNodes(piece, ext)) == ext.tagger(ext.words(piece))
    requires PieceOutput(piece, ext).Success?
    ensures AllWellFormed(PieceNodes(piece, ext)) && PieceNodes(piece, ext) != []
    ensures var units := Units(PieceNodes(piece, ext));
            var out := Join(" ", PieceOutput(piece, ext).value);
            var words := Join(" ", ext.words(piece));
            && (units[|units| - 1].0 != "." ==> out == words)
            && (units[|units| - 1].0 == "." ==> words == out + (if |units| == 1 then "" else " ") + ".")
  {
    var nodes := PieceNodes(piece, ext);
    var units := Units(nodes);
    ConsolidateKeepsWords(nodes);
    BodyJoin(units);
    PackJoin(Body(units));
  }
}
