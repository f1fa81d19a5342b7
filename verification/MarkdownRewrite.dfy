/**
 * Rewriting the link destinations of a Markdown text without reserializing it
 * (scripts/project-doc-site.ts:150-192).
 *
 * A text is written from a tree of prose and references.  The rewrite locates
 * every destination in the text, collects replacements outside in, sorts them
 * and splices them; the result is the text written from the tree with the new
 * destinations, and nothing else changed.
 */
module MarkdownRewrite {
  import opened Options
  import opened Text
  import opened MarkdownScan
  import opened MarkdownNodes
  import opened Splice
  import opened SplicePieces

  // `url` is the parsed destination the rewriter decides on; `dest` is its
  // authored form.  The children of a reference are what its label holds.
  datatype Node =
    | Prose(text: string)
    | Linked(kind: Kind, url: string, children: seq<Node>, pad: string, angle: bool, dest: string, tail: string)

  // The new destination of a reference, or none for one that stays.
  type Rewriter = (Kind, string) -> Option<string>

  function Written(n: Node): Ref
    requires n.Linked?
    decreases n, 0
  {
    Ref(n.kind, Render(n.children), n.pad, n.angle, n.dest, n.tail)
  }

  function RenderNode(n: Node): string
    decreases n, 1
  {
    if n.Prose? then n.text else Raw(Written(n))
  }

  function Render(nodes: seq<Node>): string
    decreases nodes, 0
  {
    if nodes == [] then "" else RenderNode(nodes[0]) + Render(nodes[1..])
  }

  function RewrittenNode(n: Node, next: Rewriter): Node {
    if n.Prose? then n
    else
      var children := Rewritten(n.children, next);
      match next(n.kind, n.url)
      case None => n.(children := children)
      case Some(value) => n.(children := children, dest := value)
  }

  function Rewritten(nodes: seq<Node>, next: Rewriter): seq<Node> {
    if nodes == [] then [] else [RewrittenNode(nodes[0], next)] + Rewritten(nodes[1..], next)
  }

  // The scanner can be trusted on every reference that is rewritten.
  predicate Scannable(nodes: seq<Node>, next: Rewriter) {
    nodes == [] || (ScannableNode(nodes[0], next) && Scannable(nodes[1..], next))
  }

  predicate ScannableNode(n: Node, next: Rewriter) {
    n.Linked? ==>
      && Scannable(n.children, next)
      && (next(n.kind, n.url).Some? ==>
            n.dest != [] && Authored(Written(n)) && Balanced(Written(n).text, LABEL) && DestFits(Written(n)))
  }

  // ----- the texts, spelled out -----

  // The destination as it stands between the label and what follows.
  function InBrackets(angle: bool, dest: string): string {
    if angle then "<" + dest + ">" else dest
  }

  // A link, an image, and a definition as they are written, with any destination.
  lemma ReferenceSpelled(children: seq<Node>, url: string, pad: string, angle: bool, dest: string, tail: string)
    ensures var target := pad + InBrackets(angle, dest) + tail;
            && RenderNode(Linked(Link, url, children, pad, angle, dest, tail))
               == "[" + Render(children) + "](" + target + ")"
            && RenderNode(Linked(Image, url, children, pad, angle, dest, tail))
               == "![" + Render(children) + "](" + target + ")"
            && RenderNode(Linked(Definition, url, children, pad, angle, dest, tail))
               == "[" + Render(children) + "]:" + target
  {
    RawSpelled(Ref(Link, Render(children), pad, angle, dest, tail));
    RawSpelled(Ref(Image, Render(children), pad, angle, dest, tail));
    RawSpelled(Ref(Definition, Render(children), pad, angle, dest, tail));
  }

  lemma RawSpelled(r: Ref)
    ensures Raw(r) == Opening(r.kind) + r.text + Bridge(r.kind)
                      + (r.pad + InBrackets(r.angle, r.dest) + r.tail) + Closing(r.kind)
  {
    RestSpelled(r);
    Regroup(Opening(r.kind), r.text, Rest(r));
    Regroup(Opening(r.kind) + r.text, Bridge(r.kind), r.pad + InBrackets(r.angle, r.dest) + r.tail + Closing(r.kind));
    Regroup(Opening(r.kind) + r.text + Bridge(r.kind), r.pad + InBrackets(r.angle, r.dest) + r.tail, Closing(r.kind));
  }

  lemma RestSpelled(r: Ref)
    ensures Rest(r) == Bridge(r.kind) + (r.pad + InBrackets(r.angle, r.dest) + r.tail + Closing(r.kind))
  {
  }

  // Rewriting gives every reference its new destination, if there is one, and changes
  // nothing else; what a label holds is rewritten likewise.
  lemma {:induction false} RewrittenAt(nodes: seq<Node>, next: Rewriter, k: nat)
    requires k < |nodes|
    ensures |Rewritten(nodes, next)| == |nodes|
    ensures match nodes[k]
            case Prose(_) => Rewritten(nodes, next)[k] == nodes[k]
            case Linked(kind, url, children, pad, angle, dest, tail) =>
              Rewritten(nodes, next)[k]
              == Linked(kind, url, Rewritten(children, next), pad, angle,
                        if next(kind, url).Some? then next(kind, url).value else dest, tail)
  {
    if |nodes| > 1 {
      RewrittenAt(nodes[1..], next, if k > 0 then k - 1 else 0);
    }
  }

  // ----- collecting -----

  // What locates a destination in the raw text of a reference.
  type Locator = (string, Kind) -> Result<Range, ScanError>

  function Moved(range: Range, offset: nat): Range {
    Range(offset + range.start, offset + range.end)
  }

  // What the scanner makes of one reference, from its raw text at an offset.
  function OwnEdit(raw: string, kind: Kind, url: string, offset: nat, next: Rewriter,
                   locate: Locator): Result<seq<Replacement>, ScanError>
  {
    match next(kind, url)
    case None => Ok([])
    case Some(value) =>
      match locate(raw, kind)
      case Err(e) => Err(e)
      case Ok(range) => Ok([Over(Moved(range, offset), value)])
  }

  function Over(range: Range, value: string): Replacement {
    Replacement(range.start, range.end, value)
  }

  // The first error, or both lists in a row.
  function Then(a: Result<seq<Replacement>, ScanError>, b: Result<seq<Replacement>, ScanError>)
    : Result<seq<Replacement>, ScanError>
  {
    if a.Err? then a else if b.Err? then b else Ok(a.value + b.value)
  }

  // The replacements in the order of the visit: a reference before what its label holds.
  function CollectedNode(n: Node, offset: nat, next: Rewriter, locate: Locator): Result<seq<Replacement>, ScanError>
    decreases n, 1
  {
    if n.Prose? then Ok([])
    else Then(OwnEdit(RenderNode(n), n.kind, n.url, offset, next, locate),
              Collected(n.children, offset + |Opening(n.kind)|, next, locate))
  }

  function Collected(nodes: seq<Node>, offset: nat, next: Rewriter,
                     locate: Locator): Result<seq<Replacement>, ScanError>
    decreases nodes, 0
  {
    if nodes == [] then Ok([])
    else Then(CollectedNode(nodes[0], offset, next, locate),
              Collected(nodes[1..], offset + |RenderNode(nodes[0])|, next, locate))
  }

  // ----- when collecting fails -----

  // The destination of every reference to rewrite is located, at every depth.
  predicate AllFound(nodes: seq<Node>, next: Rewriter, locate: Locator) {
    forall k :: 0 <= k < |nodes| ==> NodeFound(nodes[k], next, locate)
  }

  predicate NodeFound(n: Node, next: Rewriter, locate: Locator) {
    n.Linked? ==>
      && (next(n.kind, n.url).Some? ==> locate(RenderNode(n), n.kind).Ok?)
      && AllFound(n.children, next, locate)
  }

  // The error is that of the first reference, outside in, whose destination is not located.
  ghost predicate FirstError(nodes: seq<Node>, next: Rewriter, locate: Locator, e: ScanError) {
    exists k :: 0 <= k < |nodes| && NodeErrs(nodes[k], next, locate, e)
      && forall j :: 0 <= j < k ==> NodeFound(nodes[j], next, locate)
  }

  ghost predicate NodeErrs(n: Node, next: Rewriter, locate: Locator, e: ScanError) {
    && n.Linked?
    && if next(n.kind, n.url).Some? && locate(RenderNode(n), n.kind).Err?
       then locate(RenderNode(n), n.kind).error == e
       else FirstError(n.children, next, locate, e)
  }

  lemma {:induction false} NodeCollectsIff(n: Node, offset: nat, next: Rewriter, locate: Locator)
    ensures CollectedNode(n, offset, next, locate).Ok? <==> NodeFound(n, next, locate)
    ensures forall e :: CollectedNode(n, offset, next, locate) == Err(e) <==> NodeErrs(n, next, locate, e)
    decreases n, 1
  {
    if n.Linked? {
      CollectsIff(n.children, offset + |Opening(n.kind)|, next, locate);
    }
  }

  // Collecting succeeds exactly when every destination is located, and otherwise answers
  // the first error.
  lemma {:induction false} CollectsIff(nodes: seq<Node>, offset: nat, next: Rewriter, locate: Locator)
    ensures Collected(nodes, offset, next, locate).Ok? <==> AllFound(nodes, next, locate)
    ensures forall e :: Collected(nodes, offset, next, locate) == Err(e) <==> FirstError(nodes, next, locate, e)
    decreases nodes, 0
  {
    if nodes != [] {
      var first, rest := nodes[0], nodes[1..];
      NodeCollectsIff(first, offset, next, locate);
      CollectsIff(rest, offset + |RenderNode(first)|, next, locate);
      FoundInRow(first, rest, next, locate);
      forall e
        ensures FirstError([first] + rest, next, locate, e) <==>
                  NodeErrs(first, next, locate, e)
                  || (NodeFound(first, next, locate) && FirstError(rest, next, locate, e))
      {
        ErrorInRow(first, rest, next, locate, e);
      }
      assert nodes == [first] + rest;
    }
  }

  lemma FoundInRow(first: Node, rest: seq<Node>, next: Rewriter, locate: Locator)
    ensures AllFound([first] + rest, next, locate) <==>
              NodeFound(first, next, locate) && AllFound(rest, next, locate)
  {
    var nodes := [first] + rest;
    assert forall k :: 1 <= k < |nodes| ==> nodes[k] == rest[k - 1];
    assert forall k :: 0 <= k < |rest| ==> nodes[k + 1] == rest[k];
    assert nodes[0] == first;
  }

  // The node errs, and every one before it is found.
  ghost predicate ErrsAt(nodes: seq<Node>, next: Rewriter, locate: Locator, e: ScanError, k: nat) {
    && k < |nodes| && NodeErrs(nodes[k], next, locate, e)
    && forall j :: 0 <= j < k ==> NodeFound(nodes[j], next, locate)
  }

  lemma ErrsAtNext(first: Node, rest: seq<Node>, next: Rewriter, locate: Locator, e: ScanError, k: nat)
    ensures ErrsAt([first] + rest, next, locate, e, k + 1) <==>
              NodeFound(first, next, locate) && ErrsAt(rest, next, locate, e, k)
  {
    var nodes := [first] + rest;
    assert nodes[0] == first;
    assert forall j :: 0 <= j < |rest| ==> nodes[j + 1] == rest[j];
    assert forall j :: 1 <= j < |nodes| ==> nodes[j] == rest[j - 1];
  }

  lemma ErrorInRow(first: Node, rest: seq<Node>, next: Rewriter, locate: Locator, e: ScanError)
    ensures FirstError([first] + rest, next, locate, e) <==>
              NodeErrs(first, next, locate, e)
              || (NodeFound(first, next, locate) && FirstError(rest, next, locate, e))
  {
    var nodes := [first] + rest;
    if k: nat :| ErrsAt(rest, next, locate, e, k) {
      ErrsAtNext(first, rest, next, locate, e, k);
      assert NodeFound(first, next, locate) ==> ErrsAt(nodes, next, locate, e, k + 1);
    }
    if k: nat :| ErrsAt(nodes, next, locate, e, k) {
      if k > 0 {
        ErrsAtNext(first, rest, next, locate, e, k - 1);
      }
    }
    assert NodeErrs(first, next, locate, e) <==> ErrsAt(nodes, next, locate, e, 0);
    FirstErrorAt(nodes, next, locate, e);
    FirstErrorAt(rest, next, locate, e);
  }

  lemma FirstErrorAt(nodes: seq<Node>, next: Rewriter, locate: Locator, e: ScanError)
    ensures FirstError(nodes, next, locate, e) <==> exists k: nat :: ErrsAt(nodes, next, locate, e, k)
  {
    if FirstError(nodes, next, locate, e) {
      var k :| 0 <= k < |nodes| && NodeErrs(nodes[k], next, locate, e)
               && forall j :: 0 <= j < k ==> NodeFound(nodes[j], next, locate);
      assert ErrsAt(nodes, next, locate, e, k);
    }
    if k: nat :| ErrsAt(nodes, next, locate, e, k) {
      assert NodeErrs(nodes[k], next, locate, e);
    }
  }

  method MarkdownDestination(source: string, start: nat, end: nat, kind: Kind) returns (r: Result<Range, ScanError>)
    requires start <= end <= |source|
    ensures r == match DestinationRangeOf(source[start..end], kind)
                 case Err(e) => Err(e)
                 case Ok(range) => Ok(Moved(range, start))
  {
    var range := DestinationRange(source[start..end], kind);
    match range
    case Err(e) => r := Err(e);
    case Ok(found) => r := Ok(Moved(found, start));
  }

  // The text at an offset is the given piece.
  predicate At(source: string, offset: nat, piece: string) {
    offset + |piece| <= |source| && source[offset..offset + |piece|] == piece
  }

  lemma AtAppend(source: string, offset: nat, a: string, b: string)
    requires At(source, offset, a + b)
    ensures At(source, offset, a) && At(source, offset + |a|, b)
  {
    var piece := source[offset..offset + |a + b|];
    assert piece[..|a|] == a && piece[|a|..] == b;
  }

  method OwnReplacement(source: string, raw: string, kind: Kind, url: string, offset: nat, next: Rewriter)
    returns (r: Result<seq<Replacement>, ScanError>)
    requires At(source, offset, raw)
    ensures r == OwnEdit(raw, kind, url, offset, next, DestinationRangeOf)
  {
    var value := next(kind, url);
    if value.None? {
      return Ok([]);
    }
    var destination := MarkdownDestination(source, offset, offset + |raw|, kind);
    if destination.Err? {
      return Err(destination.error);
    }
    return Ok([Over(destination.value, value.value)]);
  }

  method VisitNode(source: string, n: Node, offset: nat, next: Rewriter)
    returns (r: Result<seq<Replacement>, ScanError>)
    requires At(source, offset, RenderNode(n))
    ensures r == CollectedNode(n, offset, next, DestinationRangeOf)
    decreases n, 1
  {
    if n.Prose? {
      return Ok([]);
    }
    var own := OwnReplacement(source, RenderNode(n), n.kind, n.url, offset, next);
    if own.Err? {
      return own;
    }
    LabelInSource(source, n, offset);
    var inner := Visit(source, n.children, offset + |Opening(n.kind)|, next);
    OwnThenInner(n, offset, next, own, inner);
    r := Then(own, inner);
  }

  lemma OwnThenInner(n: Node, offset: nat, next: Rewriter, own: Result<seq<Replacement>, ScanError>,
                     inner: Result<seq<Replacement>, ScanError>)
    requires n.Linked? && own == OwnEdit(RenderNode(n), n.kind, n.url, offset, next, DestinationRangeOf)
    requires inner == Collected(n.children, offset + |Opening(n.kind)|, next, DestinationRangeOf)
    ensures CollectedNode(n, offset, next, DestinationRangeOf) == Then(own, inner)
  {
  }

  method Visit(source: string, nodes: seq<Node>, offset: nat, next: Rewriter)
    returns (r: Result<seq<Replacement>, ScanError>)
    requires At(source, offset, Render(nodes))
    ensures r == Collected(nodes, offset, next, DestinationRangeOf)
    decreases nodes, 0
  {
    if |nodes| == 0 {
      return Ok([]);
    }
    AtAppend(source, offset, RenderNode(nodes[0]), Render(nodes[1..]));
    var first := VisitNode(source, nodes[0], offset, next);
    if first.Err? {
      return first;
    }
    var rest := Visit(source, nodes[1..], offset + |RenderNode(nodes[0])|, next);
    r := Then(first, rest);
  }

  lemma LabelInSource(source: string, n: Node, offset: nat)
    requires n.Linked? && At(source, offset, RenderNode(n))
    ensures At(source, offset + |Opening(n.kind)|, Render(n.children))
  {
    var r := Written(n);
    RawFromLabel(r);
    var open, held, rest := Opening(r.kind), r.text, Rest(r);
    AtAppend(source, offset, open, held + rest);
    AtAppend(source, offset + |open|, held, rest);
  }

  // ----- the tree as pieces of text -----

  function Destination(r: Ref, value: Option<string>): Piece {
    match value
    case None => Kept(r.dest)
    case Some(v) => Changed(r.dest, v)
  }

  // What follows a label, with the destination kept or replaced.
  function AfterLabel(r: Ref, value: Option<string>): seq<Piece> {
    [Kept(Before(r))] + [Destination(r, value)] + [Kept(After(r))]
  }

  function PiecesOfNode(n: Node, next: Rewriter): seq<Piece>
    decreases n, 1
  {
    if n.Prose? then [Kept(n.text)]
    else [Kept(Opening(n.kind))] + Pieces(n.children, next) + AfterLabel(Written(n), next(n.kind, n.url))
  }

  function Pieces(nodes: seq<Node>, next: Rewriter): seq<Piece>
    decreases nodes, 0
  {
    if nodes == [] then [] else PiecesOfNode(nodes[0], next) + Pieces(nodes[1..], next)
  }

  // The pieces read as the source, and once replaced as the rewritten text.
  predicate Reads(pieces: seq<Piece>, before: string, after: string) {
    TextOf(pieces) == before && Replaced(pieces) == after
  }

  lemma ReadsAppend(a: seq<Piece>, b: seq<Piece>)
    ensures Reads(a + b, TextOf(a) + TextOf(b), Replaced(a) + Replaced(b))
  {
    TextAppend(a, b);
    ReplacedAppend(a, b);
  }

  lemma RowReads(a: string, p: Piece, c: string)
    ensures Reads([Kept(a)] + [p] + [Kept(c)], a + (p.text + c), a + (NewText(p) + c))
  {
    PairReads(Kept(a), p);
    One(Kept(c), 0);
    ReadsAppend([Kept(a)] + [p], [Kept(c)]);
    Regroup(a, p.text, c);
    Regroup(a, NewText(p), c);
  }

  lemma PairReads(p: Piece, q: Piece)
    ensures Reads([p] + [q], p.text + q.text, NewText(p) + NewText(q))
  {
    One(p, 0);
    One(q, 0);
    ReadsAppend([p], [q]);
  }

  function Redirected(r: Ref, value: Option<string>): Ref {
    if value.Some? then r.(dest := value.value) else r
  }

  lemma AfterLabelReads(r: Ref, value: Option<string>)
    ensures Reads(AfterLabel(r, value), Rest(r), Rest(Redirected(r, value)))
  {
    RowReads(Before(r), Destination(r, value), After(r));
  }

  lemma {:induction false} NodeReads(n: Node, next: Rewriter)
    ensures Reads(PiecesOfNode(n, next), RenderNode(n), RenderNode(RewrittenNode(n, next)))
    decreases n, 1
  {
    if n.Prose? {
      One(Kept(n.text), 0);
    } else {
      var open, held, rest := [Kept(Opening(n.kind))], Pieces(n.children, next),
                                AfterLabel(Written(n), next(n.kind, n.url));
      One(open[0], 0);
      PiecesRead(n.children, next);
      AfterLabelReads(Written(n), next(n.kind, n.url));
      ReadsAppend(open, held);
      ReadsAppend(open + held, rest);
      RawInRow(Written(n));
      RawInRow(Written(RewrittenNode(n, next)));
    }
  }

  lemma RawInRow(r: Ref)
    ensures Raw(r) == Opening(r.kind) + r.text + Rest(r)
  {
  }

  lemma {:induction false} PiecesRead(nodes: seq<Node>, next: Rewriter)
    ensures Reads(Pieces(nodes, next), Render(nodes), Render(Rewritten(nodes, next)))
    decreases nodes, 0
  {
    if nodes != [] {
      NodeReads(nodes[0], next);
      PiecesRead(nodes[1..], next);
      ReadsAppend(PiecesOfNode(nodes[0], next), Pieces(nodes[1..], next));
      assert Rewritten(nodes, next)[1..] == Rewritten(nodes[1..], next);
    }
  }

  // ----- the visit collects the edits of the pieces -----

  function OwnEdits(r: Ref, value: Option<string>, offset: nat): seq<Replacement> {
    PieceEdits(Destination(r, value), offset + DestStart(r))
  }

  lemma RowEdits(a: string, p: Piece, c: string, offset: nat)
    ensures EditsOf([Kept(a)] + [p] + [Kept(c)], offset) == PieceEdits(p, offset + |a|)
  {
    var at := offset + |a|;
    One(Kept(a), offset);
    One(p, at);
    EditsAppendAt([Kept(a)], [p], offset, at);
    var front, end := [Kept(a)] + [p], at + |p.text|;
    TextAppend([Kept(a)], [p]);
    One(Kept(c), end);
    EditsAppendAt(front, [Kept(c)], offset, end);
  }

  // Kept text before some pieces and nothing else moves their edits.
  lemma KeptBefore(open: string, held: seq<Piece>, offset: nat, at: nat)
    requires at == offset + |open|
    ensures EditsOf([Kept(open)] + held, offset) == EditsOf(held, at)
    ensures TextOf([Kept(open)] + held) == open + TextOf(held)
  {
    One(Kept(open), offset);
    TextAppend([Kept(open)], held);
    EditsAppendAt([Kept(open)], held, offset, at);
  }

  lemma NodeEdits(n: Node, offset: nat, next: Rewriter, from: nat, end: nat)
    requires n.Linked? && from == offset + |Opening(n.kind)| && end == from + |Render(n.children)|
    ensures EditsOf(PiecesOfNode(n, next), offset)
            == EditsOf(AfterLabel(Written(n), next(n.kind, n.url)), end) + EditsOf(Pieces(n.children, next), from)
  {
    PiecesRead(n.children, next);
    KeptBefore(Opening(n.kind), Pieces(n.children, next), offset, from);
    EditsAppendAt([Kept(Opening(n.kind))] + Pieces(n.children, next), AfterLabel(Written(n), next(n.kind, n.url)),
                  offset, end);
  }

  lemma AfterLabelEdits(r: Ref, value: Option<string>, offset: nat, end: nat)
    requires end == offset + |Opening(r.kind)| + |r.text|
    ensures EditsOf(AfterLabel(r, value), end) == OwnEdits(r, value, offset)
  {
    RowEdits(Before(r), Destination(r, value), After(r), end);
    assert end + |Before(r)| == offset + DestStart(r);
  }

  lemma BothPermute(a: seq<Replacement>, b: seq<Replacement>, x: Result<seq<Replacement>, ScanError>,
                    y: Result<seq<Replacement>, ScanError>,
                    z: Result<seq<Replacement>, ScanError>, both: seq<Replacement>)
    requires Permutes(x, a) && Permutes(y, b) && z == Then(x, y) && both == a + b
    ensures Permutes(z, both)
  {
    ThenPermutes(a, b, x, y);
  }

  // The locator is right about every reference that is rewritten.
  predicate Located(nodes: seq<Node>, next: Rewriter, locate: Locator)
    decreases nodes, 0
  {
    nodes == [] || (LocatedNode(nodes[0], next, locate) && Located(nodes[1..], next, locate))
  }

  predicate LocatedNode(n: Node, next: Rewriter, locate: Locator)
    decreases n, 1
  {
    n.Linked? ==>
      && Located(n.children, next, locate)
      && (next(n.kind, n.url).Some? ==> n.dest != [] && locate(RenderNode(n), n.kind) == Ok(Authentic(Written(n))))
  }

  lemma FoundBy(locate: Locator, raw: string, r: Ref)
    requires locate == DestinationRangeOf && raw == Raw(r)
    requires Authored(r) && Balanced(r.text, LABEL) && DestFits(r)
    ensures locate(raw, r.kind) == Ok(Authentic(r))
  {
    DestinationFound(r);
  }

  lemma {:induction false} NodeScanned(n: Node, next: Rewriter)
    requires ScannableNode(n, next)
    ensures LocatedNode(n, next, DestinationRangeOf)
    decreases n, 1
  {
    if n.Linked? {
      Scanned(n.children, next);
      if next(n.kind, n.url).Some? {
        FoundBy(DestinationRangeOf, RenderNode(n), Written(n));
      }
    }
  }

  lemma {:induction false} Scanned(nodes: seq<Node>, next: Rewriter)
    requires Scannable(nodes, next)
    ensures Located(nodes, next, DestinationRangeOf)
    decreases nodes, 0
  {
    if nodes != [] {
      NodeScanned(nodes[0], next);
      Scanned(nodes[1..], next);
    }
  }

  // Where the locator is right, the visit finds the authored destination.
  lemma OwnEditFound(raw: string, r: Ref, url: string, offset: nat, next: Rewriter, locate: Locator)
    requires next(r.kind, url).Some? ==> locate(raw, r.kind) == Ok(Authentic(r))
    ensures OwnEdit(raw, r.kind, url, offset, next, locate) == Ok(OwnEdits(r, next(r.kind, url), offset))
  {
  }

  // Both lists hold the same replacements, in any order.
  predicate Permutes(x: Result<seq<Replacement>, ScanError>, edits: seq<Replacement>) {
    x.Ok? && Bag(x.value) == Bag(edits)
  }

  lemma ThenPermutes(a: seq<Replacement>, b: seq<Replacement>, x: Result<seq<Replacement>, ScanError>,
                     y: Result<seq<Replacement>, ScanError>)
    requires Permutes(x, a) && Permutes(y, b)
    ensures Permutes(Then(x, y), a + b) && Permutes(Then(x, y), b + a)
  {
    BagAppend(x.value, y.value);
    BagAppend(a, b);
    BagAppend(b, a);
  }

  lemma CollectedInRow(n: Node, offset: nat, next: Rewriter, locate: Locator, from: nat)
    requires n.Linked? && from == offset + |Opening(n.kind)|
    ensures CollectedNode(n, offset, next, locate)
            == Then(OwnEdit(RenderNode(n), n.kind, n.url, offset, next, locate),
                    Collected(n.children, from, next, locate))
  {
  }

  lemma OwnPermutes(raw: string, r: Ref, url: string, offset: nat, next: Rewriter, locate: Locator, end: nat)
    requires next(r.kind, url).Some? ==> locate(raw, r.kind) == Ok(Authentic(r))
    requires end == offset + |Opening(r.kind)| + |r.text|
    ensures Permutes(OwnEdit(raw, r.kind, url, offset, next, locate), EditsOf(AfterLabel(r, next(r.kind, url)), end))
  {
    OwnEditFound(raw, r, url, offset, next, locate);
    AfterLabelEdits(r, next(r.kind, url), offset, end);
  }

  lemma {:induction false} NodeCollects(n: Node, offset: nat, next: Rewriter, locate: Locator)
    requires LocatedNode(n, next, locate)
    ensures Permutes(CollectedNode(n, offset, next, locate), EditsOf(PiecesOfNode(n, next), offset))
    decreases n, 1
  {
    if n.Prose? {
      One(Kept(n.text), offset);
    } else {
      var from := offset + |Opening(n.kind)|;
      var end := from + |Render(n.children)|;
      Collects(n.children, from, next, locate);
      LinkedCollects(n, offset, next, locate, from, end);
    }
  }

  lemma LinkedCollects(n: Node, offset: nat, next: Rewriter, locate: Locator, from: nat, end: nat)
    requires n.Linked? && (next(n.kind, n.url).Some? ==> locate(RenderNode(n), n.kind) == Ok(Authentic(Written(n))))
    requires from == offset + |Opening(n.kind)| && end == from + |Render(n.children)|
    requires Permutes(Collected(n.children, from, next, locate), EditsOf(Pieces(n.children, next), from))
    ensures Permutes(CollectedNode(n, offset, next, locate), EditsOf(PiecesOfNode(n, next), offset))
  {
    CollectedInRow(n, offset, next, locate, from);
    OwnPermutes(RenderNode(n), Written(n), n.url, offset, next, locate, end);
    NodeEdits(n, offset, next, from, end);
    BothPermute(EditsOf(AfterLabel(Written(n), next(n.kind, n.url)), end), EditsOf(Pieces(n.children, next), from),
                OwnEdit(RenderNode(n), n.kind, n.url, offset, next, locate), Collected(n.children, from, next, locate),
                CollectedNode(n, offset, next, locate), EditsOf(PiecesOfNode(n, next), offset));
  }

  // The visit collects, in its own order, exactly the edits of the pieces.
  lemma {:induction false} Collects(nodes: seq<Node>, offset: nat, next: Rewriter, locate: Locator)
    requires Located(nodes, next, locate)
    ensures Permutes(Collected(nodes, offset, next, locate), EditsOf(Pieces(nodes, next), offset))
    decreases nodes, 0
  {
    if nodes != [] {
      var n, after := nodes[0], offset + |RenderNode(nodes[0])|;
      NodeCollects(n, offset, next, locate);
      Collects(nodes[1..], after, next, locate);
      NodeReads(n, next);
      EditsAppendAt(PiecesOfNode(n, next), Pieces(nodes[1..], next), offset, after);
      ThenPermutes(EditsOf(PiecesOfNode(n, next), offset), EditsOf(Pieces(nodes[1..], next), after),
                   CollectedNode(n, offset, next, locate), Collected(nodes[1..], after, next, locate));
    }
  }

  lemma ChangesAppend(a: seq<Piece>, b: seq<Piece>)
    requires ChangesText(a) && ChangesText(b)
    ensures ChangesText(a + b)
  {
  }

  lemma {:induction false} NodeChanges(n: Node, next: Rewriter, locate: Locator)
    requires LocatedNode(n, next, locate)
    ensures ChangesText(PiecesOfNode(n, next))
    decreases n, 1
  {
    if n.Linked? {
      PiecesChange(n.children, next, locate);
      ChangesAppend([Kept(Opening(n.kind))], Pieces(n.children, next));
    }
  }

  lemma {:induction false} PiecesChange(nodes: seq<Node>, next: Rewriter, locate: Locator)
    requires Located(nodes, next, locate)
    ensures ChangesText(Pieces(nodes, next))
    decreases nodes, 0
  {
    if nodes != [] {
      NodeChanges(nodes[0], next, locate);
      PiecesChange(nodes[1..], next, locate);
      ChangesAppend(PiecesOfNode(nodes[0], next), Pieces(nodes[1..], next));
    }
  }

  // ----- the whole text -----

  // Sorted and substituted, what the visit collects rewrites the tree.
  lemma WholeText(source: string, tree: seq<Node>, next: Rewriter, locate: Locator)
    requires source == Render(tree) && Located(tree, next, locate)
    ensures var collected := Collected(tree, 0, next, locate);
            && collected.Ok?
            && Separated(SortDescending(collected.value), |source|)
            && Substitute(source, SortDescending(collected.value), |source|) == Render(Rewritten(tree, next))
  {
    var pieces := Pieces(tree, next);
    var edits := EditsOf(pieces, 0);
    PiecesRead(tree, next);
    EditsReplace(source, pieces);
    Collects(tree, 0, next, locate);
    PiecesChange(tree, next, locate);
    EditsNonempty(pieces, 0);
    BagIsMultiset(edits);
    BagIsMultiset(Collected(tree, 0, next, locate).value);
    SortSeparates(Collected(tree, 0, next, locate).value, edits, |source|);
  }

  // Main result: on a text whose rewritten references can be scanned, the
  // published text is the text of the tree with the new destinations.
  method RewriteMarkdown(source: string, tree: seq<Node>, next: Rewriter) returns (r: Result<string, ScanError>)
    requires source == Render(tree)
    ensures r.Ok? <==> AllFound(tree, next, DestinationRangeOf)
    ensures r.Err? ==> FirstError(tree, next, DestinationRangeOf, r.error)
    ensures Scannable(tree, next) ==> r == Ok(Render(Rewritten(tree, next)))
  {
    if Scannable(tree, next) {
      Scanned(tree, next);
      WholeText(source, tree, next, DestinationRangeOf);
    }
    CollectsIff(tree, 0, next, DestinationRangeOf);
    var replacements := Visit(source, tree, 0, next);
    if replacements.Err? {
      return Err(replacements.error);
    }
    var projected := SpliceAll(source, SortDescending(replacements.value));
    return Ok(projected);
  }
}
