/**
 * `parseJsDoc` as it runs: buffers, their flushes, and the loop over the lines
 * (scripts/jsdoc.ts:32-82).
 */
module JsDocParser {
  import opened Options
  import opened Text
  import opened Words
  import opened JsDoc

  // ----- stripping the comment -----

  function StripOpen(raw: string): string {
    if "/**" <= raw then raw[3..] else raw
  }

  function StripClose(raw: string): string {
    if |raw| >= 2 && raw[|raw| - 2..] == "*/" then raw[..|raw| - 2] else raw
  }

  // A line without its indentation, its star, one white space after it, and its end.
  function AfterStar(line: string): string {
    var t := TrimStart(line);
    var u := if t != [] && t[0] == '*' then t[1..] else t;
    if u != [] && IsSpace(u[0]) then u[1..] else u
  }

  function CleanLine(line: string): string {
    TrimEnd(AfterStar(line))
  }

  function CleanLines(lines: seq<string>): (clean: seq<string>)
    ensures |clean| == |lines|
  {
    if lines == [] then [] else [CleanLine(lines[0])] + CleanLines(lines[1..])
  }

  function LinesOf(raw: string): seq<string> {
    CleanLines(Split(StripClose(StripOpen(raw)), '\n'))
  }

  // Cleaning takes one star from a line that starts with one, and no other word.
  lemma CleanLineWords(line: string)
    ensures var t := TrimStart(line);
            WordsOf(CleanLine(line)) == if t != [] && t[0] == '*' then WordsOf(t[1..]) else WordsOf(line)
  {
    TrimEndWords(AfterStar(line));
    TrimStartWords(line);
  }

  // ----- segments of the lines read so far -----

  predicate NoBullets(lines: seq<string>) {
    forall i :: 0 <= i < |lines| ==> !IsBullet(lines[i])
  }

  predicate NoBlanks(lines: seq<string>) {
    forall i :: 0 <= i < |lines| ==> !IsBlank(lines[i])
  }

  predicate NoTags(lines: seq<string>) {
    forall i :: 0 <= i < |lines| ==> !IsTag(lines[i])
  }

  // Nothing, or lines that end in a blank one.
  predicate Closed(lines: seq<string>) {
    lines == [] || IsBlank(lines[|lines| - 1])
  }

  lemma {:induction false} PlainUntilBullet(a: seq<string>, b: seq<string>)
    requires NoBullets(a) && (b == [] || IsBullet(b[0]))
    ensures UntilBullet(a + b) == |a|
  {
    if a == [] {
      assert a + b == b;
    } else {
      assert (a + b)[1..] == a[1..] + b;
      PlainUntilBullet(a[1..], b);
    }
  }

  lemma {:induction false} UntilBulletPrefix(a: seq<string>, b: seq<string>)
    requires b != [] && IsBullet(b[0])
    ensures UntilBullet(a + b) == UntilBullet(a)
  {
    if a == [] {
      assert a + b == b;
    } else {
      assert (a + b)[1..] == a[1..] + b;
      UntilBulletPrefix(a[1..], b);
    }
  }

  // A bullet starts a new item whatever came before it.
  lemma {:induction false} ItemsAppend(a: seq<string>, b: seq<string>)
    requires b != [] && IsBullet(b[0])
    ensures Items(a + b) == Items(a) + Items(b)
    decreases |a|
  {
    if a == [] {
      assert a + b == b;
    } else {
      assert (a + b)[1..] == a[1..] + b;
      UntilBulletPrefix(a[1..], b);
      var k := 1 + UntilBullet(a[1..]);
      assert (a + b)[..k] == a[..k] && (a + b)[k..] == a[k..] + b;
      ItemsAppend(a[k..], b);
    }
  }

  lemma OneItem(item: seq<string>)
    requires item != [] && NoBullets(item[1..])
    ensures Items(item) == [Joined(item)]
  {
    PlainUntilBullet(item[1..], []);
    assert item[1..] + [] == item[1..];
    assert item[..|item|] == item && item[|item|..] == [];
  }

  lemma {:induction false} UntilBlankPrefix(a: seq<string>, b: seq<string>)
    requires a != [] && Closed(a)
    ensures UntilBlank(a + b) == UntilBlank(a) < |a|
  {
    assert (a + b)[1..] == a[1..] + b;
    if !IsBlank(a[0]) {
      UntilBlankPrefix(a[1..], b);
    }
  }

  lemma {:induction false} BlocksAppend(a: seq<string>, b: seq<string>)
    requires Closed(a)
    ensures Blocks(a + b) == Blocks(a) + Blocks(b)
    decreases |a|
  {
    if a == [] {
      assert a + b == b;
    } else if IsBlank(a[0]) {
      assert (a + b)[1..] == a[1..] + b;
      BlocksAppend(a[1..], b);
    } else {
      UntilBlankPrefix(a, b);
      var n := UntilBlank(a);
      assert (a + b)[..n] == a[..n] && (a + b)[n..] == a[n..] + b;
      BlocksAppend(a[n..], b);
    }
  }

  lemma {:induction false} UntilBlankAll(group: seq<string>, rest: seq<string>)
    requires NoBlanks(group) && (rest == [] || IsBlank(rest[0]))
    ensures UntilBlank(group + rest) == |group|
  {
    if group == [] {
      assert group + rest == rest;
    } else {
      assert (group + rest)[1..] == group[1..] + rest;
      UntilBlankAll(group[1..], rest);
    }
  }

  lemma GroupThenBlank(group: seq<string>, blank: seq<string>)
    requires NoBlanks(group) && |blank| <= 1 && (blank == [] || IsBlank(blank[0]))
    ensures Blocks(group + blank) == GroupBlocks(group)
  {
    var all := group + blank;
    assert Blocks(blank) == [] by {
      assert blank != [] ==> blank[1..] == [];
    }
    if group == [] {
      assert all == blank;
      assert group[..0] == [];
    } else {
      UntilBlankAll(group, blank);
      assert all[..|group|] == group && all[|group|..] == blank;
    }
  }

  lemma TakeOneMore(lines: seq<string>, i: nat)
    requires i < |lines|
    ensures lines[..i + 1] == lines[..i] + [lines[i]]
  {
  }

  // One more line at the end of the open stretch.
  lemma OpenStretch(done: seq<string>, plain: seq<string>, front: seq<string>, item: seq<string>, line: string)
    ensures done + (plain + (front + item) + [line]) == done + (plain + front + item) + [line]
    ensures done + (plain + front + (item + [line])) == done + (plain + front + item) + [line]
    ensures done + ((plain + [line]) + [] + []) == done + (plain + [] + []) + [line]
  {
    assert plain + (front + item) == plain + front + item;
    assert plain + front + (item + [line]) == (plain + front + item) + [line];
    assert (plain + [line]) + [] + [] == plain + [line];
  }

  lemma PushFirst(item: seq<string>, line: string)
    ensures item == [] ==> item + [line] == [line]
  {
  }

  // ----- the buffers -----

  // The lines read are `done`, then the stretch `plain + front + item`.
  predicate Holding(blocks: seq<string>, para: seq<string>, list: seq<string>, item: seq<string>,
                    done: seq<string>, plain: seq<string>, front: seq<string>)
  {
    && Closed(done) && NoBullets(plain) && NoBlanks(plain + front + item)
    && (if item == [] then
          para == plain && front == [] && list == [] && blocks == Blocks(done)
        else
          && para == [] && IsBullet(item[0]) && NoBullets(item[1..])
          && (front == [] || IsBullet(front[0])) && list == Items(front)
          && blocks == Blocks(done) + if plain == [] then [] else [Joined(plain)])
  }

  lemma PlainGroup(plain: seq<string>)
    requires NoBullets(plain)
    ensures GroupBlocks(plain) == if plain == [] then [] else [Joined(plain)]
  {
    assert plain + [] == plain;
    PlainUntilBullet(plain, []);
    assert plain[..|plain|] == plain;
  }

  lemma ListGroup(plain: seq<string>, bullets: seq<string>)
    requires NoBullets(plain) && bullets != [] && IsBullet(bullets[0])
    ensures GroupBlocks(plain + bullets)
            == (if plain == [] then [] else [Joined(plain)]) + [JoinWith(Items(bullets), '\n', "")]
  {
    var group := plain + bullets;
    PlainUntilBullet(plain, bullets);
    assert group[..|plain|] == plain && group[|plain|..] == bullets;
  }

  lemma ItemsSoFar(front: seq<string>, item: seq<string>)
    requires item != [] && IsBullet(item[0]) && NoBullets(item[1..]) && (front == [] || IsBullet(front[0]))
    ensures IsBullet((front + item)[0]) && Items(front + item) == Items(front) + [Joined(item)]
  {
    assert (front + item)[0] == if front == [] then item[0] else front[0];
    ItemsAppend(front, item);
    OneItem(item);
  }

  lemma FlushedPlain(done: seq<string>, plain: seq<string>)
    requires NoBullets(plain)
    ensures Blocks(done) + GroupBlocks(plain + [] + [])
            == Blocks(done) + [] + (if plain == [] then [] else [Joined(plain)])
  {
    assert plain + [] + [] == plain;
    PlainGroup(plain);
  }

  lemma FlushedList(done: seq<string>, plain: seq<string>, front: seq<string>, item: seq<string>)
    requires NoBullets(plain) && item != [] && IsBullet(item[0]) && NoBullets(item[1..])
             && (front == [] || IsBullet(front[0]))
    ensures Blocks(done) + GroupBlocks(plain + front + item)
            == Blocks(done) + (if plain == [] then [] else [Joined(plain)])
               + [JoinWith(Items(front) + [Joined(item)], '\n', "")] + []
  {
    ItemsSoFar(front, item);
    ListGroup(plain, front + item);
    Regroup(plain, front, item);
    RegroupBlocks(Blocks(done), if plain == [] then [] else [Joined(plain)],
                  [JoinWith(Items(front) + [Joined(item)], '\n', "")]);
  }

  lemma FlushedGroup(blocks: seq<string>, para: seq<string>, list: seq<string>, item: seq<string>,
                     done: seq<string>, plain: seq<string>, front: seq<string>)
    requires Holding(blocks, para, list, item, done, plain, front)
    ensures Blocks(done) + GroupBlocks(plain + front + item)
            == blocks + (if item == [] then [] else [JoinWith(list + [Joined(item)], '\n', "")])
               + (if para == [] then [] else [Joined(para)])
  {
    if item == [] {
      FlushedPlain(done, plain);
    } else {
      FlushedList(done, plain, front, item);
    }
  }

  lemma RegroupBlocks(a: seq<string>, b: seq<string>, c: seq<string>)
    ensures a + (b + c) == a + b + c + []
  {
  }

  lemma NoBlanksMore(lines: seq<string>, line: string)
    requires NoBlanks(lines) && !IsBlank(line)
    ensures NoBlanks(lines + [line])
  {
  }

  lemma {:induction false} StartHolding(blocks: seq<string>, para: seq<string>, list: seq<string>, item: seq<string>,
                                        done: seq<string>, plain: seq<string>, front: seq<string>, line: string)
    requires Holding(blocks, para, list, item, done, plain, front) && IsBullet(line) && !IsBlank(line)
    ensures Holding(if para == [] then blocks else blocks + [Joined(para)], [],
                    if item == [] then list else list + [Joined(item)], [line], done, plain, front + item)
  {
    if item != [] {
      ItemsSoFar(front, item);
    }
    Regroup(plain, front, item);
    NoBlanksMore(plain + front + item, line);
    assert [line][1..] == [];
    EmptyEnds(blocks);
  }

  lemma FlushedBlocks(done: seq<string>, group: seq<string>, blank: seq<string>)
    requires Closed(done) && NoBlanks(group) && |blank| <= 1 && (blank == [] || IsBlank(blank[0]))
    ensures Blocks(done + group + blank) == Blocks(done) + GroupBlocks(group)
  {
    assert done + group + blank == done + (group + blank);
    BlocksAppend(done, group + blank);
    GroupThenBlank(group, blank);
  }

  function JoinParts(parts: seq<string>): (s: string)
    ensures s == Joined(parts)
  {
    WordsOfJoin(parts, ' ', "");
    TrimCollapse(JoinWith(parts, ' ', ""));
    Trim(Collapse(JoinWith(parts, ' ', "")))
  }

  // What the flushes leave in the blocks is the group's blocks.
  lemma Flushed(blocks: seq<string>, para: seq<string>, list: seq<string>, item: seq<string>,
                done: seq<string>, plain: seq<string>, front: seq<string>, pushed: seq<string>, listed: seq<string>,
                all: seq<string>)
    requires Holding(blocks, para, list, item, done, plain, front)
    requires pushed == if item == [] then list else list + [Joined(item)]
    requires listed == if pushed == [] then blocks else blocks + [JoinWith(pushed, '\n', "")]
    requires all == if para == [] then listed else listed + [Joined(para)]
    ensures all == Blocks(done) + GroupBlocks(plain + front + item)
  {
    FlushedGroup(blocks, para, list, item, done, plain, front);
    EmptyEnds(blocks);
    EmptyEnds(listed);
  }

  // The same, for the values the buffers have afterwards.
  lemma Started(blocks: seq<string>, para: seq<string>, list: seq<string>, item: seq<string>,
                done: seq<string>, plain: seq<string>, front: seq<string>, line: string,
                newBlocks: seq<string>, newList: seq<string>, newItem: seq<string>, newFront: seq<string>)
    requires Holding(blocks, para, list, item, done, plain, front) && IsBullet(line) && !IsBlank(line)
    requires newBlocks == if para == [] then blocks else blocks + [Joined(para)]
    requires newList == if item == [] then list else list + [Joined(item)]
    requires newItem == [line] && newFront == front + item
    ensures Holding(newBlocks, [], newList, newItem, done, plain, newFront)
  {
    StartHolding(blocks, para, list, item, done, plain, front, line);
  }

  class Buffers {
    var blocks: seq<string>
    var para: seq<string>
    var list: seq<string>
    var item: seq<string>
    // The lines the buffers stand for: closed stretches, then the open one.
    ghost var done: seq<string>
    ghost var plain: seq<string>
    ghost var front: seq<string>

    constructor ()
      ensures Holds() && Lines() == []
    {
      blocks, para, list, item := [], [], [], [];
      done, plain, front := [], [], [];
    }

    ghost predicate Holds()
      reads this
    {
      Holding(blocks, para, list, item, done, plain, front)
    }

    predicate Empty()
      reads this
    {
      para == [] && list == [] && item == []
    }

    ghost function Lines(): seq<string>
      reads this
    {
      done + (plain + front + item)
    }

    method FlushItem()
      modifies this`list, this`item
      ensures item == []
      ensures list == if old(item) == [] then old(list) else old(list) + [Joined(old(item))]
    {
      if |item| > 0 {
        list := list + [JoinParts(item)];
      }
      item := [];
    }

    method FlushList()
      modifies this`blocks, this`list, this`item
      ensures item == [] && list == []
      ensures var pushed := if old(item) == [] then old(list) else old(list) + [Joined(old(item))];
              blocks == if pushed == [] then old(blocks) else old(blocks) + [JoinWith(pushed, '\n', "")]
    {
      FlushItem();
      if |list| > 0 {
        blocks := blocks + [JoinWith(list, '\n', "")];
      }
      list := [];
    }

    // Everything read so far becomes blocks; flushing empty buffers changes nothing.
    method FlushPara()
      modifies this`blocks, this`para, this`list, this`item
      ensures Empty()
      ensures old(Empty()) ==> blocks == old(blocks)
      ensures old(Holds()) ==> blocks == Blocks(done) + GroupBlocks(plain + front + old(item))
    {
      ghost var held := Holds();
      ghost var b, p, l, i := blocks, para, list, item;
      FlushList();
      ghost var listed := blocks;
      FlushOnlyPara();
      if held {
        Flushed(b, p, l, i, done, plain, front, if i == [] then l else l + [Joined(i)], listed, blocks);
      }
    }

    method AtBlank(line: string)
      requires Holds() && IsBlank(line)
      modifies this
      ensures Holds() && Lines() == old(Lines()) + [line]
    {
      ghost var group := plain + front + item;
      FlushedBlocks(done, group, [line]);
      FlushPara();
      done, plain, front := done + group + [line], [], [];
    }

    // A list item starts: a pending paragraph is flushed first, so it stays above.
    method PushItem(line: string)
      modifies this`blocks, this`para, this`list, this`item
      ensures para == [] && item == [line]
      ensures blocks == if old(para) == [] then old(blocks) else old(blocks) + [Joined(old(para))]
      ensures list == if old(item) == [] then old(list) else old(list) + [Joined(old(item))]
    {
      FlushItem();
      FlushOnlyPara();
      PushFirst(item, line);
      item := item + [line];
    }

    method StartItem(line: string)
      requires Holds() && IsBullet(line) && !IsBlank(line)
      modifies this
      ensures Holds() && Lines() == old(Lines()) + [line]
    {
      OpenStretch(done, plain, front, item, line);
      ghost var b, p, l, i, f := blocks, para, list, item, front;
      front := front + item;
      PushItem(line);
      Started(b, p, l, i, done, plain, f, line, blocks, list, item, front);
    }

    // The paragraph alone, as it goes above the list that starts.
    method FlushOnlyPara()
      modifies this`blocks, this`para
      ensures para == [] && blocks == if old(para) == [] then old(blocks) else old(blocks) + [Joined(old(para))]
    {
      if |para| > 0 {
        blocks := blocks + [JoinParts(para)];
        para := [];
      }
    }

    method Continue(line: string)
      requires Holds() && !IsBullet(line) && !IsBlank(line) && item != []
      modifies this`item
      ensures Holds() && Lines() == old(Lines()) + [line]
    {
      assert plain + front + (item + [line]) == (plain + front + item) + [line];
      assert (item + [line])[1..] == item[1..] + [line];
      item := item + [line];
    }

    method AddPara(line: string)
      requires Holds() && !IsBullet(line) && !IsBlank(line) && item == []
      modifies this`para, this`plain
      ensures Holds() && Lines() == old(Lines()) + [line]
    {
      assert (plain + [line]) + front + item == (plain + front + item) + [line];
      para := para + [line];
      plain := plain + [line];
    }

    // One line of prose.
    // The paragraph buffer and the list buffers are never filled at the same time.
    method ReadProse(line: string)
      requires Holds()
      modifies this
      ensures Holds() && Lines() == old(Lines()) + [line]
      ensures para == [] || (list == [] && item == [])
    {
      if IsBlank(line) {
        AtBlank(line);
      } else if IsBullet(line) {
        StartItem(line);
      } else if |item| > 0 {
        Continue(line);
      } else {
        AddPara(line);
      }
    }

    // The prose ends, at a tag or after the last line.
    method EndProse(ghost prose: seq<string>)
      requires Holds() && Lines() == prose
      modifies this
      ensures Empty() && blocks == Blocks(prose)
    {
      ghost var group := plain + front + item;
      FlushedBlocks(done, group, []);
      assert done + group + [] == prose;
      FlushPara();
    }
  }

  // ----- the loop -----

  lemma {:induction false} ProseOfPlain(lines: seq<string>, rest: seq<string>)
    requires NoTags(lines)
    ensures Prose(lines + rest) == lines + Prose(rest)
  {
    if lines == [] {
      assert lines + rest == rest;
    } else {
      assert (lines + rest)[1..] == lines[1..] + rest;
      ProseOfPlain(lines[1..], rest);
      assert lines == [lines[0]] + lines[1..];
    }
  }

  // The mode of the last line that names one.
  function LastMode(lines: seq<string>): Option<Mode>
    decreases |lines|
  {
    if lines == [] then None
    else
      var last := ModeOf(lines[|lines| - 1]);
      if last.Some? then last else LastMode(lines[..|lines| - 1])
  }

  predicate SomeModeTag(lines: seq<string>) {
    exists i :: 0 <= i < |lines| && IsModeTag(lines[i])
  }

  lemma ModeIsTag(line: string)
    ensures ModeOf(line).Some? ==> IsModeTag(line)
    ensures IsModeTag(line) ==> IsTag(line)
  {
  }

  lemma OneMoreLine(lines: seq<string>, line: string)
    ensures LastMode(lines + [line]) == if ModeOf(line).Some? then ModeOf(line) else LastMode(lines)
    ensures SomeModeTag(lines + [line]) <==> SomeModeTag(lines) || IsModeTag(line)
    ensures NoTags(lines + [line]) <==> NoTags(lines) && !IsTag(line)
  {
    var all := lines + [line];
    assert all[..|all| - 1] == lines && all[|lines|] == line;
    assert forall i :: 0 <= i < |lines| ==> all[i] == lines[i];
  }

  method ParseLines(lines: seq<string>) returns (blocks: seq<string>, mode: Option<Mode>, hasMode: bool)
    ensures blocks == Blocks(Prose(lines))
    ensures mode == LastMode(lines)
    ensures hasMode <==> SomeModeTag(lines)
  {
    mode, hasMode := None, false;
    var inTags := false;
    var buffers := new Buffers();
    for i := 0 to |lines|
      invariant Tracked(mode, hasMode, lines[..i])
      invariant Progress(buffers, inTags, lines, i)
    {
      OneMoreLine(lines[..i], lines[i]);
      ModeIsTag(lines[i]);
      TakeOneMore(lines, i);
      if ModeOf(lines[i]).Some? {
        mode, hasMode := ModeOf(lines[i]), true;
      } else if IsModeTag(lines[i]) {
        hasMode := true;
      }
      inTags := ReadLine(buffers, inTags, lines, i);
    }
    assert lines[..|lines|] == lines;
    if !inTags {
      ProseUpTo(lines, |lines|);
      buffers.EndProse(lines);
    } else {
      buffers.FlushPara();
    }
    blocks := buffers.blocks;
  }

  predicate Tracked(mode: Option<Mode>, hasMode: bool, lines: seq<string>) {
    mode == LastMode(lines) && (hasMode <==> SomeModeTag(lines))
  }

  // After the first i lines: still in the prose, or past its end.
  ghost predicate Progress(buffers: Buffers, inTags: bool, lines: seq<string>, i: nat)
    requires i <= |lines|
    reads buffers
  {
    if inTags then buffers.Empty() && buffers.blocks == Blocks(Prose(lines))
    else NoTags(lines[..i]) && buffers.Lines() == lines[..i] && buffers.Holds()
  }

  // Any tag ends the prose; what follows a tag is never prose.
  method ReadLine(buffers: Buffers, inTags: bool, lines: seq<string>, i: nat) returns (tags: bool)
    requires i < |lines| && Progress(buffers, inTags, lines, i)
    modifies buffers
    ensures Progress(buffers, tags, lines, i + 1)
  {
    if IsTag(lines[i]) {
      if inTags {
        buffers.FlushPara();
      } else {
        ProseUpTo(lines, i);
        buffers.EndProse(lines[..i]);
      }
      return true;
    }
    if inTags {
      return true;
    }
    OneMoreLine(lines[..i], lines[i]);
    TakeOneMore(lines, i);
    buffers.ReadProse(lines[i]);
    return false;
  }

  lemma ProseUpTo(lines: seq<string>, i: nat)
    requires i <= |lines| && NoTags(lines[..i]) && (i < |lines| ==> IsTag(lines[i]))
    ensures Prose(lines) == lines[..i]
  {
    assert lines == lines[..i] + lines[i..];
    ProseOfPlain(lines[..i], lines[i..]);
    assert lines[..i] + [] == lines[..i];
  }

  // Main result: the description of a comment, before links are unwrapped, holds
  // exactly the words of its lines before the first tag, in order.
  method ParseJsDoc(raw: string) returns (doc: string, mode: Option<Mode>, hasMode: bool)
    ensures doc == Doc(LinesOf(raw)) && WordsOf(doc) == AllWords(Prose(LinesOf(raw)))
    ensures mode == LastMode(LinesOf(raw)) && (hasMode <==> SomeModeTag(LinesOf(raw)))
    ensures mode.Some? ==> hasMode
  {
    var blocks;
    blocks, mode, hasMode := ParseLines(LinesOf(raw));
    doc := Trim(JoinWith(blocks, '\n', "\n"));
    DocKeepsWords(LinesOf(raw));
    ModeHasTag(LinesOf(raw));
  }

  lemma {:induction false} ModeHasTag(lines: seq<string>)
    ensures LastMode(lines).Some? ==> SomeModeTag(lines)
    decreases |lines|
  {
    if lines != [] {
      var front, last := lines[..|lines| - 1], lines[|lines| - 1];
      ModeHasTag(front);
      OneMoreLine(front, last);
      ModeIsTag(last);
      assert lines == front + [last];
    }
  }
}
