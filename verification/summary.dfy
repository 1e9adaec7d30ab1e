/**
 * getSummary: the text excerpt and the embedded image of a page, extracted
 * from the page's block tree by two depth-first walks over an explicit stack
 * of (sibling list, cursor) frames.
 *
 * The pure part of this module states what the walks compute: the pre-order
 * sequence of entity blocks with their depths (PreOrder), the line each one
 * contributes (FormatLine), the budget cut (TakeBudget) and the first image
 * (FirstImage). The method GetSummary is the stack-based walk itself, proved
 * equal to them.
 */
module Summary {
  import opened Wrappers

  /** A node of the host's block tree: a block entity with its content and
      children, or a `["uuid", id]` reference tuple (which has no `id` field,
      so both walks skip it without descending). */
  datatype Block = Entity(content: string, children: seq<Block>) | Ref(uuid: string)

  /** The character budget of an excerpt, and also the cut applied to each
      block's content. */
  const Max: nat := 100

  /** An entity block met by the walk: its depth (0 for top-level blocks) and content. */
  datatype Visit = Visit(depth: nat, content: string)

  /** Entity blocks of `bs` in pre-order, children right after their parent
      one level deeper; reference tuples are neither emitted nor descended. */
  function PreOrder(bs: seq<Block>, depth: nat): seq<Visit>
    decreases bs
  {
    if bs == [] then []
    else
      var head :=
        if bs[0].Entity? then [Visit(depth, bs[0].content)] + PreOrder(bs[0].children, depth + 1)
        else [];
      head + PreOrder(bs[1..], depth)
  }

  function Indent(depth: nat): string
  {
    if depth == 0 then [] else "  " + Indent(depth - 1)
  }

  /** `content.substring(0, 100)`: the first 100 characters, or all of a shorter content. */
  function Truncate(content: string): (r: string)
    ensures r <= content
    ensures |r| == if |content| <= Max then |content| else Max
  {
    if |content| <= Max then content else content[..Max]
  }

  /** The summary line of one visit: the content cut to 100 characters,
      after `'  ' * depth + '* '` when the block is nested. */
  function FormatLine(v: Visit): string
  {
    if v.depth > 0 then Indent(v.depth) + "* " + Truncate(v.content)
    else Truncate(v.content)
  }

  function Lines(vs: seq<Visit>): (r: seq<string>)
    ensures |r| == |vs|
  {
    if vs == [] then [] else [FormatLine(vs[0])] + Lines(vs[1..])
  }

  function SumLens(lines: seq<string>): nat
  {
    if lines == [] then 0 else |lines[0]| + SumLens(lines[1..])
  }

  /** Lines are taken while the running total, starting at `total`, is below
      the budget; the line that reaches it is the last one taken. */
  function TakeBudget(vs: seq<Visit>, total: nat): seq<string>
  {
    if vs == [] || total >= Max then []
    else [FormatLine(vs[0])] + TakeBudget(vs[1..], total + |FormatLine(vs[0])|)
  }

  /** The capture of the first visit, in pre-order, whose content the asset
      pattern matches; "" when none does. */
  function FirstImage(vs: seq<Visit>, imageMatch: string -> Option<string>): string
  {
    if vs == [] then ""
    else match imageMatch(vs[0].content)
      case Some(name) => name
      case None => FirstImage(vs[1..], imageMatch)
  }

  // ---------------------------------------------------------------------------
  // What the excerpt and the image are.

  /** The excerpt is the leading part of the pre-order lines: nothing is
      reordered, skipped or cut beyond the per-line formatting. */
  lemma {:induction false} TakeBudgetIsPrefix(vs: seq<Visit>, total: nat)
    ensures |TakeBudget(vs, total)| <= |vs|
    ensures TakeBudget(vs, total) == Lines(vs)[..|TakeBudget(vs, total)|]
  {
    if vs != [] && total < Max {
      TakeBudgetIsPrefix(vs[1..], total + |FormatLine(vs[0])|);
    }
  }

  /** Every line but the last is emitted while the running total is below
      the budget: the lines before the last one sum to less than 100. */
  lemma {:induction false} TakeBudgetUnderBudget(vs: seq<Visit>, total: nat)
    ensures var r := TakeBudget(vs, total);
      |r| > 0 ==> total + SumLens(r[..|r| - 1]) < Max
  {
    var r := TakeBudget(vs, total);
    if |r| > 0 {
      var line := FormatLine(vs[0]);
      var tail := TakeBudget(vs[1..], total + |line|);
      TakeBudgetUnderBudget(vs[1..], total + |line|);
      assert r == [line] + tail;
      if |tail| > 0 {
        assert r[..|r| - 1] == [line] + tail[..|tail| - 1];
        assert r[..|r| - 1][1..] == tail[..|tail| - 1];
      } else {
        assert r[..|r| - 1] == [];
      }
    }
  }

  /** Emission stops only at the end of the tree or once the total has
      reached the budget. */
  lemma {:induction false} TakeBudgetStopsAtBudget(vs: seq<Visit>, total: nat)
    ensures |TakeBudget(vs, total)| < |vs| ==> total + SumLens(TakeBudget(vs, total)) >= Max
  {
    if vs != [] && total < Max {
      var line := FormatLine(vs[0]);
      TakeBudgetStopsAtBudget(vs[1..], total + |line|);
      assert TakeBudget(vs, total)[1..] == TakeBudget(vs[1..], total + |line|);
    }
  }

  lemma {:induction false} IndentLength(depth: nat)
    ensures |Indent(depth)| == 2 * depth
  {
    if depth > 0 { IndentLength(depth - 1); }
  }

  /** A line is the content cut to 100 characters, after an indent of two
      characters per level and the two-character bullet when nested. */
  lemma FormatLineLength(v: Visit)
    ensures |FormatLine(v)| == |Truncate(v.content)| + (if v.depth > 0 then 2 * v.depth + 2 else 0)
    ensures |FormatLine(v)| <= Max + (if v.depth > 0 then 2 * v.depth + 2 else 0)
    ensures v.depth > 0 ==> Indent(v.depth) + "* " <= FormatLine(v)
    ensures v.depth == 0 ==> FormatLine(v) <= v.content
  {
    IndentLength(v.depth);
  }

  /** The pre-order of two sibling lists one after the other is the
      pre-order of the first, then that of the second. */
  lemma {:induction false} PreOrderAppend(a: seq<Block>, b: seq<Block>, depth: nat)
    ensures PreOrder(a + b, depth) == PreOrder(a, depth) + PreOrder(b, depth)
  {
    if a == [] {
      assert a + b == b;
    } else {
      assert (a + b)[0] == a[0];
      assert (a + b)[1..] == a[1..] + b;
      PreOrderAppend(a[1..], b, depth);
    }
  }

  /** A reference tuple anywhere among its siblings is neither emitted nor
      descended: dropping it leaves the visits, and so the lines and the
      image, unchanged. */
  lemma RefSkipped(bs: seq<Block>, i: nat, depth: nat)
    requires i < |bs| && bs[i].Ref?
    ensures PreOrder(bs[..i] + bs[i + 1..], depth) == PreOrder(bs, depth)
  {
    var rest := [bs[i]] + bs[i + 1..];
    assert bs == bs[..i] + rest;
    assert rest[1..] == bs[i + 1..];
    PreOrderAppend(bs[..i], rest, depth);
    PreOrderAppend(bs[..i], bs[i + 1..], depth);
  }

  /** A list of reference tuples only contributes no lines and no image. */
  lemma {:induction false} RefsOnlyVisitNothing(bs: seq<Block>, depth: nat)
    requires forall k :: 0 <= k < |bs| ==> bs[k].Ref?
    ensures PreOrder(bs, depth) == []
  {
    if bs != [] {
      RefsOnlyVisitNothing(bs[1..], depth);
    }
  }

  /** The image is the capture of the first visit the pattern matches, and
      "" when it matches none. */
  lemma {:induction false} FirstImageIsFirstMatch(vs: seq<Visit>, imageMatch: string -> Option<string>, k: nat)
    requires k < |vs| && imageMatch(vs[k].content).Some?
    requires forall j :: 0 <= j < k ==> imageMatch(vs[j].content).None?
    ensures FirstImage(vs, imageMatch) == imageMatch(vs[k].content).value
  {
    if k > 0 {
      FirstImageIsFirstMatch(vs[1..], imageMatch, k - 1);
    }
  }

  lemma {:induction false} FirstImageNoMatch(vs: seq<Visit>, imageMatch: string -> Option<string>)
    requires forall j :: 0 <= j < |vs| ==> imageMatch(vs[j].content).None?
    ensures FirstImage(vs, imageMatch) == ""
  {
    if vs != [] {
      FirstImageNoMatch(vs[1..], imageMatch);
    }
  }

  // ---------------------------------------------------------------------------
  // The walk's stack: frame k of the stack is at depth k.

  datatype Frame = Frame(blocks: seq<Block>, index: nat)

  /** Every frame's cursor is within its list (it moves only past an existing block). */
  predicate ValidStack(stack: seq<Frame>)
  {
    forall k :: 0 <= k < |stack| ==> stack[k].index <= |stack[k].blocks|
  }

  /** What the walk has still to visit: the rest of the top frame's list, then
      the rest of each frame below it. */
  function StackRest(stack: seq<Frame>): seq<Visit>
    requires ValidStack(stack)
    decreases |stack|
  {
    if stack == [] then []
    else
      var top := stack[|stack| - 1];
      PreOrder(top.blocks[top.index..], |stack| - 1) + StackRest(stack[..|stack| - 1])
  }

  /** Number of blocks, references included, in a list of trees. */
  function Count(bs: seq<Block>): nat
    decreases bs
  {
    if bs == [] then 0
    else 1 + (if bs[0].Entity? then Count(bs[0].children) else 0) + Count(bs[1..])
  }

  function StackSize(stack: seq<Frame>): nat
    requires ValidStack(stack)
    decreases |stack|
  {
    if stack == [] then 0
    else
      var top := stack[|stack| - 1];
      Count(top.blocks[top.index..]) + StackSize(stack[..|stack| - 1])
  }

  /** Visiting the block under a frame's cursor: an entity contributes its own
      visit and then its subtree; a reference contributes nothing. */
  lemma PreOrderAt(bs: seq<Block>, i: nat, depth: nat)
    requires i < |bs|
    ensures PreOrder(bs[i..], depth) ==
      (if bs[i].Entity? then [Visit(depth, bs[i].content)] + PreOrder(bs[i].children, depth + 1)
       else []) + PreOrder(bs[i + 1..], depth)
  {
    assert bs[i..][0] == bs[i];
    assert bs[i..][1..] == bs[i + 1..];
  }

  lemma CountAt(bs: seq<Block>, i: nat)
    requires i < |bs|
    ensures Count(bs[i..]) == 1 + (if bs[i].Entity? then Count(bs[i].children) else 0) + Count(bs[i + 1..])
  {
    assert bs[i..][0] == bs[i];
    assert bs[i..][1..] == bs[i + 1..];
  }

  /** Top frame is exhausted: the walk pops it. */
  predicate Exhausted(stack: seq<Frame>)
  {
    stack != [] && stack[|stack| - 1].index >= |stack[|stack| - 1].blocks|
  }

  /** Popping an exhausted frame leaves what remains to visit unchanged. */
  lemma StackRestPop(stack: seq<Frame>)
    requires ValidStack(stack) && Exhausted(stack)
    ensures ValidStack(stack[..|stack| - 1])
    ensures StackRest(stack[..|stack| - 1]) == StackRest(stack)
    ensures StackSize(stack[..|stack| - 1]) == StackSize(stack)
  {
    var top := stack[|stack| - 1];
    var below := stack[..|stack| - 1];
    assert top.blocks[top.index..] == [];
    assert forall k :: 0 <= k < |below| ==> below[k] == stack[k];
    assert StackRest(stack) == [] + StackRest(below);
    assert StackSize(stack) == 0 + StackSize(below);
  }

  /** The block under the top frame's cursor. */
  function Current(stack: seq<Frame>): Block
    requires stack != [] && !Exhausted(stack)
  {
    stack[|stack| - 1].blocks[stack[|stack| - 1].index]
  }

  /** The stack after the cursor of its top frame moves past the current
      block (`currentParent.index++`). */
  function Moved(stack: seq<Frame>): seq<Frame>
    requires stack != [] && !Exhausted(stack)
  {
    var top := stack[|stack| - 1];
    stack[..|stack| - 1] + [Frame(top.blocks, top.index + 1)]
  }

  /** One step of either walk (without the image walk's early exit): the
      cursor moves, and an entity with children gets a new frame for them on top. */
  function Advance(stack: seq<Frame>): seq<Frame>
    requires stack != [] && !Exhausted(stack)
  {
    var block := Current(stack);
    if block.Entity? && |block.children| > 0 then Moved(stack) + [Frame(block.children, 0)]
    else Moved(stack)
  }

  /** What one step emits: the current block's visit, if it is an entity. */
  function Emitted(stack: seq<Frame>): seq<Visit>
    requires stack != [] && !Exhausted(stack)
  {
    var block := Current(stack);
    if block.Entity? then [Visit(|stack| - 1, block.content)] else []
  }

  /** Pushing a frame over `bs[i..]` one level above `below`. */
  lemma PushRest(below: seq<Frame>, bs: seq<Block>, i: nat)
    requires ValidStack(below) && i <= |bs|
    ensures ValidStack(below + [Frame(bs, i)])
    ensures StackRest(below + [Frame(bs, i)]) == PreOrder(bs[i..], |below|) + StackRest(below)
  {
    var st := below + [Frame(bs, i)];
    assert st[..|st| - 1] == below;
  }

  lemma PushSize(below: seq<Frame>, bs: seq<Block>, i: nat)
    requires ValidStack(below) && i <= |bs|
    ensures ValidStack(below + [Frame(bs, i)])
    ensures StackSize(below + [Frame(bs, i)]) == Count(bs[i..]) + StackSize(below)
  {
    var st := below + [Frame(bs, i)];
    assert st[..|st| - 1] == below;
  }

  /** A step visits exactly the next block of the pre-order and shrinks the
      number of blocks left on the stack. */
  lemma AdvanceStep(stack: seq<Frame>)
    requires ValidStack(stack) && stack != [] && !Exhausted(stack)
    ensures ValidStack(Advance(stack))
    ensures StackRest(stack) == Emitted(stack) + StackRest(Advance(stack))
    ensures StackSize(Advance(stack)) < StackSize(stack)
  {
    AdvanceRest(stack);
    AdvanceSize(stack);
  }

  lemma Assoc<T>(a: seq<T>, b: seq<T>, c: seq<T>)
    ensures (a + b) + c == a + (b + c)
  {
  }

  /** The subtree under the current block, in pre-order. */
  function Below(stack: seq<Frame>): seq<Visit>
    requires stack != [] && !Exhausted(stack)
  {
    var block := Current(stack);
    if block.Entity? then PreOrder(block.children, |stack|) else []
  }

  /** Moving the cursor leaves the current block's visit and its subtree out
      of what remains. */
  lemma MovedRest(stack: seq<Frame>)
    requires ValidStack(stack) && stack != [] && !Exhausted(stack)
    ensures ValidStack(Moved(stack))
    ensures StackRest(stack) == (Emitted(stack) + Below(stack)) + StackRest(Moved(stack))
  {
    var top := stack[|stack| - 1];
    var depth := |stack| - 1;
    var below := stack[..|stack| - 1];
    var b, c := PreOrder(top.blocks[top.index + 1..], depth), StackRest(below);
    var here := Emitted(stack) + Below(stack);
    assert StackRest(stack) == PreOrder(top.blocks[top.index..], depth) + c;
    assert PreOrder(top.blocks[top.index..], depth) == here + b by {
      PreOrderAt(top.blocks, top.index, depth);
    }
    PushRest(below, top.blocks, top.index + 1);
    assert StackRest(Moved(stack)) == b + c;
    Assoc(here, b, c);
  }

  lemma AdvanceRest(stack: seq<Frame>)
    requires ValidStack(stack) && stack != [] && !Exhausted(stack)
    ensures ValidStack(Advance(stack))
    ensures StackRest(stack) == Emitted(stack) + StackRest(Advance(stack))
  {
    MovedRest(stack);
    var block := Current(stack);
    if block.Entity? && |block.children| > 0 {
      AdvancePushRest(stack);
    } else {
      assert Below(stack) == [];
      assert Emitted(stack) + Below(stack) == Emitted(stack);
    }
  }

  lemma AdvancePushRest(stack: seq<Frame>)
    requires ValidStack(stack) && stack != [] && !Exhausted(stack)
    requires Current(stack).Entity? && |Current(stack).children| > 0
    requires ValidStack(Moved(stack))
    requires StackRest(stack) == (Emitted(stack) + Below(stack)) + StackRest(Moved(stack))
    ensures ValidStack(Advance(stack))
    ensures StackRest(stack) == Emitted(stack) + StackRest(Advance(stack))
  {
    var children := Current(stack).children;
    PushRest(Moved(stack), children, 0);
    assert children[0..] == children;
    assert StackRest(Advance(stack)) == Below(stack) + StackRest(Moved(stack));
    Assoc(Emitted(stack), Below(stack), StackRest(Moved(stack)));
  }

  lemma AdvanceSize(stack: seq<Frame>)
    requires ValidStack(stack) && stack != [] && !Exhausted(stack)
    ensures ValidStack(Advance(stack))
    ensures StackSize(Advance(stack)) < StackSize(stack)
  {
    var top := stack[|stack| - 1];
    var block := Current(stack);
    CountAt(top.blocks, top.index);
    PushSize(stack[..|stack| - 1], top.blocks, top.index + 1);
    if block.Entity? && |block.children| > 0 {
      PushSize(Moved(stack), block.children, 0);
      assert block.children[0..] == block.children;
    }
  }

  lemma StackOfRoots(blocks: seq<Block>)
    ensures ValidStack([Frame(blocks, 0)])
    ensures StackRest([Frame(blocks, 0)]) == PreOrder(blocks, 0)
  {
    var stack := [Frame(blocks, 0)];
    assert blocks[0..] == blocks && stack[..0] == [];
  }

  lemma FirstImageCons(v: Visit, rest: seq<Visit>, imageMatch: string -> Option<string>)
    ensures FirstImage([v] + rest, imageMatch) ==
      if imageMatch(v.content).Some? then imageMatch(v.content).value else FirstImage(rest, imageMatch)
  {
    assert ([v] + rest)[1..] == rest;
  }

  lemma TakeBudgetCons(v: Visit, rest: seq<Visit>, total: nat)
    requires total < Max
    ensures TakeBudget([v] + rest, total) == [FormatLine(v)] + TakeBudget(rest, total + |FormatLine(v)|)
  {
    assert ([v] + rest)[1..] == rest;
  }

  lemma {:induction false} SumLensAppend(lines: seq<string>, line: string)
    ensures SumLens(lines + [line]) == SumLens(lines) + |line|
  {
    if lines != [] {
      assert (lines + [line])[1..] == lines[1..] + [line];
      SumLensAppend(lines[1..], line);
    } else {
      assert [line][1..] == [];
    }
  }

  /** getSummary: the excerpt lines and the image name of a page's blocks.
      An empty (or null) block list gives `([], "")`. */
  method GetSummary(blocks: seq<Block>, imageMatch: string -> Option<string>)
    returns (summary: seq<string>, image: string)
    ensures summary == TakeBudget(PreOrder(blocks, 0), 0)
    ensures image == FirstImage(PreOrder(blocks, 0), imageMatch)
    ensures blocks == [] ==> summary == [] && image == ""
  {
    summary := [];
    image := "";
    if |blocks| > 0 {
      summary := SummaryWalk(blocks);
      image := ImageWalk(blocks, imageMatch);
    }
  }

  /** A step of the summary walk over an entity block keeps its invariant:
      the lines emitted so far, with this block's line, followed by the
      budget cut of what remains, are the whole excerpt. */
  lemma EntityStep(stack: seq<Frame>, summary: seq<string>, total: nat, spec: seq<string>,
                   line: string, stack': seq<Frame>)
    requires ValidStack(stack) && stack != [] && !Exhausted(stack) && Current(stack).Entity?
    requires total < Max && total == SumLens(summary)
    requires summary + TakeBudget(StackRest(stack), total) == spec
    requires line == FormatLine(Visit(|stack| - 1, Current(stack).content))
    requires stack' == Advance(stack)
    ensures ValidStack(stack') && stack' != [] && StackSize(stack') < StackSize(stack)
    ensures total + |line| == SumLens(summary + [line])
    ensures (summary + [line]) + TakeBudget(StackRest(stack'), total + |line|) == spec
  {
    AdvanceStep(stack);
    var rest := StackRest(stack');
    var v := Visit(|stack| - 1, Current(stack).content);
    var tail := TakeBudget(rest, total + |line|);
    assert Emitted(stack) == [v];
    assert TakeBudget(StackRest(stack), total) == [line] + tail by {
      assert StackRest(stack) == [v] + rest;
      TakeBudgetCons(v, rest, total);
    }
    Assoc(summary, [line], tail);
    SumLensAppend(summary, line);
  }

  /** A step over a reference tuple emits nothing and keeps the invariant. */
  lemma RefStep(stack: seq<Frame>, summary: seq<string>, total: nat, spec: seq<string>, stack': seq<Frame>)
    requires ValidStack(stack) && stack != [] && !Exhausted(stack) && Current(stack).Ref?
    requires summary + TakeBudget(StackRest(stack), total) == spec
    requires stack' == Advance(stack)
    ensures ValidStack(stack') && stack' != [] && StackSize(stack') < StackSize(stack)
    ensures summary + TakeBudget(StackRest(stack'), total) == spec
  {
    AdvanceStep(stack);
    assert Emitted(stack) == [];
    assert StackRest(stack) == StackRest(stack');
  }

  /** One step of the image walk: an entity the pattern matches decides the
      image; any other block leaves the answer to the rest of the walk. */
  lemma ImageStep(stack: seq<Frame>, imageMatch: string -> Option<string>, spec: string)
    requires ValidStack(stack) && stack != [] && !Exhausted(stack)
    requires FirstImage(StackRest(stack), imageMatch) == spec
    ensures ValidStack(Advance(stack))
    ensures StackSize(Advance(stack)) < StackSize(stack)
    ensures Current(stack).Entity? && imageMatch(Current(stack).content).Some? ==>
      imageMatch(Current(stack).content).value == spec
    ensures !(Current(stack).Entity? && imageMatch(Current(stack).content).Some?) ==>
      FirstImage(StackRest(Advance(stack)), imageMatch) == spec
  {
    AdvanceStep(stack);
    var rest := StackRest(Advance(stack));
    if Current(stack).Entity? {
      var v := Visit(|stack| - 1, Current(stack).content);
      assert Emitted(stack) == [v];
      assert StackRest(stack) == [v] + rest;
      FirstImageCons(v, rest, imageMatch);
    } else {
      assert Emitted(stack) == [];
      assert StackRest(stack) == rest;
    }
  }

  /** The inner loop of both walks: pop the frames whose cursor has passed
      their last block, until the stack is empty or its top frame has a block
      left. */
  method PopExhausted(stack0: seq<Frame>) returns (stack: seq<Frame>)
    requires ValidStack(stack0)
    ensures ValidStack(stack) && (stack == [] || !Exhausted(stack))
    ensures StackRest(stack) == StackRest(stack0) && StackSize(stack) == StackSize(stack0)
  {
    stack := stack0;
    while Exhausted(stack)
      invariant ValidStack(stack)
      invariant StackRest(stack) == StackRest(stack0)
      invariant StackSize(stack) == StackSize(stack0)
      decreases |stack|
    {
      StackRestPop(stack);
      stack := stack[..|stack| - 1];
    }
  }

  /** The line of a block at `depth`: its content cut to the budget, then
      indented and bulleted when the block is nested. */
  method LineOf(depth: nat, content: string) returns (line: string)
    ensures line == FormatLine(Visit(depth, content))
  {
    line := Truncate(content);
    if depth > 0 {
      line := Indent(depth) + "* " + line;
    }
  }

  /** The first walk of getSummary: pre-order over the stack, emitting a line
      per entity block, until the running total reaches the budget. */
  method SummaryWalk(blocks: seq<Block>) returns (summary: seq<string>)
    ensures summary == TakeBudget(PreOrder(blocks, 0), 0)
  {
    ghost var spec := TakeBudget(PreOrder(blocks, 0), 0);
    summary := [];
    var total: nat := 0;
    var stack := [Frame(blocks, 0)];
    StackOfRoots(blocks);
    while total < Max
      invariant ValidStack(stack) && stack != []
      invariant total == SumLens(summary)
      invariant summary + TakeBudget(StackRest(stack), total) == spec
      decreases StackSize(stack)
    {
      stack := PopExhausted(stack);
      if stack == [] {
        break;
      }
      ghost var stack0, summary0, total0 := stack, summary, total;
      var depth := |stack| - 1;
      var top := stack[|stack| - 1];
      var block := top.blocks[top.index];
      stack := stack[..|stack| - 1] + [Frame(top.blocks, top.index + 1)];
      if block.Entity? {
        var content := LineOf(depth, block.content);
        total := total + |content|;
        summary := summary + [content];
        if |block.children| > 0 {
          stack := stack + [Frame(block.children, 0)];
        }
        EntityStep(stack0, summary0, total0, spec, content, stack);
      } else {
        RefStep(stack0, summary, total, spec, stack);
      }
    }
  }

  /** The second walk of getSummary: pre-order over the whole tree, stopping
      at the first entity block whose content the asset pattern matches. */
  method ImageWalk(blocks: seq<Block>, imageMatch: string -> Option<string>) returns (image: string)
    ensures image == FirstImage(PreOrder(blocks, 0), imageMatch)
  {
    ghost var spec := FirstImage(PreOrder(blocks, 0), imageMatch);
    image := "";
    var stack := [Frame(blocks, 0)];
    StackOfRoots(blocks);
    while stack != []
      invariant ValidStack(stack)
      invariant image == ""
      invariant FirstImage(StackRest(stack), imageMatch) == spec
      decreases StackSize(stack)
    {
      stack := PopExhausted(stack);
      if stack == [] {
        break;
      }
      ImageStep(stack, imageMatch, spec);
      ghost var next := Advance(stack);
      var top := stack[|stack| - 1];
      var block := top.blocks[top.index];
      stack := stack[..|stack| - 1] + [Frame(top.blocks, top.index + 1)];
      if block.Entity? {
        var found := imageMatch(block.content);
        if found.Some? {
          image := found.value;
          break;
        }
        if |block.children| > 0 {
          stack := stack + [Frame(block.children, 0)];
        }
      }
      assert stack == next;
    }
  }
}
