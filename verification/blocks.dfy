/** Template blocks: `_parse_blocks` replaces every `L block name R ... L
    endblock R` region by the text recorded for `name`, or by nothing when
    `name` is on the stack of blocks being recorded. */
module Blocks {
  import opened Wrappers
  import opened Text
  import opened Lexer

  /** A template cut at its block tags: a character outside them, or a whole
      block region with its name and its text. */
  datatype BlockPiece = Char(c: char) | Block(name: string, text: string)

  /** The pieces of `t[i..]`, block regions taken leftmost first. */
  function BlockScan(t: string, d: Delims, i: nat): seq<BlockPiece>
    requires i <= |t|
    decreases |t| - i
  {
    if i == |t| then []
    else
      match PairAt(t, i, BlockOpen(d), BlockClose(d))
      case Some(m) => [Block(m.caps[0], t[i..m.end])] + BlockScan(t, d, m.end)
      case None => [Char(t[i])] + BlockScan(t, d, i + 1)
  }

  /** The text the pieces were cut from. */
  function BlockText(ps: seq<BlockPiece>): string {
    if ps == [] then ""
    else
      match ps[0]
      case Char(c) => [c] + BlockText(ps[1..])
      case Block(_, text) => text + BlockText(ps[1..])
  }

  /** The text outside the block regions. */
  function Outside(ps: seq<BlockPiece>): string {
    if ps == [] then ""
    else
      match ps[0]
      case Char(c) => [c] + Outside(ps[1..])
      case Block(_, _) => Outside(ps[1..])
  }

  /** `_get_block`: the recorded text of a block, or nothing. */
  function GetBlock(blocks: map<string, string>, name: string): string {
    if name in blocks then blocks[name] else ""
  }

  /** What one region becomes: nothing while its block is being recorded,
      otherwise the block's recorded text. */
  function Replacement(name: string, stack: seq<string>, blocks: map<string, string>): string {
    if name in stack then "" else GetBlock(blocks, name)
  }

  /** The template with every block region replaced. */
  function Expand(ps: seq<BlockPiece>, stack: seq<string>, blocks: map<string, string>): string {
    if ps == [] then ""
    else
      match ps[0]
      case Char(c) => [c] + Expand(ps[1..], stack, blocks)
      case Block(name, _) => Replacement(name, stack, blocks) + Expand(ps[1..], stack, blocks)
  }

  // ---------------------------------------------------------------------
  // Properties

  /** The scan cuts the template into pieces without losing or adding text. */
  lemma {:induction false} BlockScanCovers(t: string, d: Delims, i: nat)
    requires i <= |t|
    ensures BlockText(BlockScan(t, d, i)) == t[i..]
    decreases |t| - i
  {
    if i < |t| {
      var r := PairAt(t, i, BlockOpen(d), BlockClose(d));
      if r.Some? {
        var k := r.value.end;
        BlockScanCovers(t, d, k);
        assert BlockScan(t, d, i) == [Block(r.value.caps[0], t[i..k])] + BlockScan(t, d, k);
        SliceAt(t, i, k);
      } else {
        BlockScanCovers(t, d, i + 1);
        assert BlockScan(t, d, i) == [Char(t[i])] + BlockScan(t, d, i + 1);
        SliceAt(t, i, i + 1);
        assert t[i..i + 1] == [t[i]];
      }
    }
  }

  /** A template without the left delimiter has no block regions, and
      expanding it changes nothing. */
  lemma {:induction false} NoBlocksUnchanged(t: string, d: Delims, i: nat, stack: seq<string>, blocks: map<string, string>)
    requires i <= |t|
    requires AbsentBefore(t, d.left, |t|)
    ensures Expand(BlockScan(t, d, i), stack, blocks) == t[i..]
    decreases |t| - i
  {
    if i < |t| {
      NoLeftNoPair(t, i, d, BlockOpen(d), BlockClose(d));
      assert PairAt(t, i, BlockOpen(d), BlockClose(d)).None?;
      NoBlocksUnchanged(t, d, i + 1, stack, blocks);
      assert t[i..] == [t[i]] + t[i + 1..];
    }
  }

  /** With nothing recorded, every block region disappears and the text
      around the regions stays. */
  lemma {:induction false} NothingRecorded(ps: seq<BlockPiece>, stack: seq<string>)
    ensures Expand(ps, stack, map[]) == Outside(ps)
  {
    if ps != [] {
      NothingRecorded(ps[1..], stack);
    }
  }

  /** What is recorded for a block on the stack is never used: two records
      that agree on every block not on the stack expand alike. */
  lemma {:induction false} StackedBlocksIgnored(ps: seq<BlockPiece>, stack: seq<string>, b1: map<string, string>, b2: map<string, string>)
    requires forall n :: n !in stack ==> GetBlock(b1, n) == GetBlock(b2, n)
    ensures Expand(ps, stack, b1) == Expand(ps, stack, b2)
  {
    if ps != [] {
      StackedBlocksIgnored(ps[1..], stack, b1, b2);
    }
  }

  /** A region whose block is being recorded expands to nothing, whatever is
      recorded for it. */
  lemma StackedBlockEmpty(name: string, stack: seq<string>, blocks: map<string, string>)
    requires name in stack
    ensures Replacement(name, stack, blocks) == ""
  {
  }

  /** Expanding a template cut in two is expanding each part. */
  lemma {:induction false} ExpandAppend(ps: seq<BlockPiece>, qs: seq<BlockPiece>, stack: seq<string>, blocks: map<string, string>)
    ensures Expand(ps + qs, stack, blocks) == Expand(ps, stack, blocks) + Expand(qs, stack, blocks)
  {
    if ps == [] {
      assert ps + qs == qs;
    } else {
      assert (ps + qs)[1..] == ps[1..] + qs;
      ExpandAppend(ps[1..], qs, stack, blocks);
    }
  }

  /** A region of a block not being recorded is replaced by exactly that
      block's recorded text, or by nothing when none is recorded, and the
      text around it is expanded as before. */
  lemma RegionBecomesRecorded(before: seq<BlockPiece>, name: string, body: string, after: seq<BlockPiece>,
                              stack: seq<string>, blocks: map<string, string>)
    requires name !in stack
    ensures Expand(before + [Block(name, body)] + after, stack, blocks) ==
            Expand(before, stack, blocks) + (if name in blocks then blocks[name] else "") + Expand(after, stack, blocks)
  {
    ExpandAppend(before + [Block(name, body)], after, stack, blocks);
    ExpandAppend(before, [Block(name, body)], stack, blocks);
    assert Expand([Block(name, body)], stack, blocks) == GetBlock(blocks, name) + Expand([], stack, blocks);
  }

  /** With an empty stack the length of the expanded template is the length
      of the text outside the regions plus that of the recorded texts the
      regions take. */
  lemma {:induction false} ExpandLength(ps: seq<BlockPiece>, blocks: map<string, string>)
    ensures |Expand(ps, [], blocks)| == |Outside(ps)| + Recorded(ps, blocks)
  {
    if ps != [] {
      ExpandLength(ps[1..], blocks);
    }
  }

  /** The total length of the recorded texts the regions take. */
  function Recorded(ps: seq<BlockPiece>, blocks: map<string, string>): nat {
    if ps == [] then 0
    else
      match ps[0]
      case Char(_) => Recorded(ps[1..], blocks)
      case Block(name, _) => |GetBlock(blocks, name)| + Recorded(ps[1..], blocks)
  }
}
