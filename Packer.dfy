/** Packing rendered coupon blocks into messages of bounded length (the
    chunking loop at the end of `main` and its nested `send_if_meaningful`).
    Sending a message is modelled by appending it to the sequence of sent
    texts. */
module Packer {
  import opened Text

  /** Largest message the loop builds on purpose (the transport allows 4096). */
  const ChunkLimit: nat := 3500

  /** The continuation marker ("continued..."). */
  const Marker: string := "(ادامه...)"

  /** What every message after the first starts with. */
  const Continuation: string := Marker + "\n\n"

  /** The text that `send_if_meaningful` sends: not blank once right-stripped,
      and not the bare continuation marker once stripped. */
  predicate Meaningful(text: string) {
    var t := RStrip(text);
    t != [] && Strip(t) != Marker
  }

  /** `send_if_meaningful(text)` after the texts `sent` have been sent. */
  function SendIfMeaningful(sent: seq<string>, text: string): seq<string> {
    if Meaningful(text) then sent + [RStrip(text)] else sent
  }

  /** The texts sent when the buffers `bufs` are flushed in order. */
  function Sendable(bufs: seq<string>): (sent: seq<string>)
    ensures |sent| <= |bufs|
    decreases |bufs|
  {
    if bufs == [] then []
    else SendIfMeaningful(Sendable(bufs[..|bufs| - 1]), bufs[|bufs| - 1])
  }

  /** The guard's promise: no sent text is blank or the bare continuation
      marker, and each is already right-stripped. */
  lemma {:induction false} SendableMeaningful(bufs: seq<string>)
    ensures forall t :: t in Sendable(bufs) ==> t != [] && Strip(t) != Marker && RStrip(t) == t
    decreases |bufs|
  {
    if bufs != [] {
      SendableMeaningful(bufs[..|bufs| - 1]);
      RStripTwice(bufs[|bufs| - 1]);
    }
  }

  /** When every buffer is meaningful, each one is sent, right-stripped. */
  lemma {:induction false} SendableAll(bufs: seq<string>)
    requires forall k :: 0 <= k < |bufs| ==> Meaningful(bufs[k])
    ensures |Sendable(bufs)| == |bufs|
    ensures forall k :: 0 <= k < |bufs| ==> Sendable(bufs)[k] == RStrip(bufs[k])
    decreases |bufs|
  {
    if bufs != [] {
      var init, last := bufs[..|bufs| - 1], bufs[|bufs| - 1];
      SendableAll(init);
      var sent := Sendable(init);
      assert Meaningful(last);
      assert Sendable(bufs) == sent + [RStrip(last)];
      forall k | 0 <= k < |bufs| ensures Sendable(bufs)[k] == RStrip(bufs[k]) {
        if k < |init| {
          assert bufs[k] == init[k];
        }
      }
    }
  }

  /** How the buffer holding group `k` starts. */
  function Opening(header: string, k: nat): string {
    if k == 0 then header else Continuation
  }

  /** The buffer that holds group `k`: the opening, then the group's blocks. */
  function Buffer(header: string, k: nat, group: seq<string>): string {
    Opening(header, k) + Concat(group)
  }

  /** The buffers holding the groups `groups`, in order. */
  function BuffersOf(header: string, groups: seq<seq<string>>): (bufs: seq<string>)
    ensures |bufs| == |groups|
    ensures forall k :: 0 <= k < |groups| ==> bufs[k] == Buffer(header, k, groups[k])
  {
    seq(|groups|, k requires 0 <= k < |groups| => Buffer(header, k, groups[k]))
  }

  lemma BuffersOfSnoc(header: string, groups: seq<seq<string>>, group: seq<string>)
    ensures BuffersOf(header, groups + [group]) == BuffersOf(header, groups) + [Buffer(header, |groups|, group)]
  {
    var g' := groups + [group];
    forall k | 0 <= k < |groups| ensures BuffersOf(header, g')[k] == BuffersOf(header, groups)[k] {
      assert g'[k] == groups[k];
    }
  }

  lemma SendableSnoc(bufs: seq<string>, text: string)
    ensures Sendable(bufs + [text]) == SendIfMeaningful(Sendable(bufs), text)
  {
    assert (bufs + [text])[..|bufs|] == bufs;
  }

  /** The state of the loop: the groups of blocks whose buffers were flushed,
      the group whose buffer is being filled, and the text of that buffer
      (the loop's `message`). */
  datatype Packing = Packing(closed: seq<seq<string>>, open: seq<string>, message: string)

  /** All groups, the open one last. */
  function Groups(p: Packing): seq<seq<string>> {
    p.closed + [p.open]
  }

  /** The group of the first buffer, the one that opens with the header. */
  function FirstGroup(p: Packing): seq<string> {
    if p.closed == [] then p.open else p.closed[0]
  }

  /** The blocks placed so far, in order: those of the closed groups, then
      those of the open group. */
  function Placed(p: Packing): seq<string> {
    Concat(p.closed) + p.open
  }

  /** The loop's `message` is the buffer of the open group. */
  predicate Valid(header: string, p: Packing) {
    p.message == Buffer(header, |p.closed|, p.open)
  }

  /** Where the loop puts the next block: into the open buffer when the
      result stays within `ChunkLimit`; otherwise the open buffer is flushed
      and a new one, a continuation, holds the block. */
  function Place(p: Packing, block: string): Packing {
    if |p.message| + |block| > ChunkLimit then Packing(p.closed + [p.open], [block], Continuation + block)
    else Packing(p.closed, p.open + [block], p.message + block)
  }

  /** The state after the first `i` blocks. */
  function Packed(header: string, blocks: seq<string>, i: nat): Packing
    requires i <= |blocks|
  {
    if i == 0 then Packing([], [], header)
    else Place(Packed(header, blocks, i - 1), blocks[i - 1])
  }

  /** The buffers the loop flushes, the last one included. */
  function Buffers(header: string, blocks: seq<string>): seq<string> {
    BuffersOf(header, Groups(Packed(header, blocks, |blocks|)))
  }

  /** The texts the loop sends. */
  function Sent(header: string, blocks: seq<string>): seq<string> {
    Sendable(Buffers(header, blocks))
  }

  /** The flush after group `k` was forced: the next group is not empty and
      its first block did not fit in the flushed buffer. */
  predicate Forced(header: string, g: seq<seq<string>>, k: nat)
    requires k + 1 < |g|
  {
    g[k + 1] != [] && |Buffer(header, k, g[k])| + |g[k + 1][0]| > ChunkLimit
  }

  /** Every flush was forced. */
  predicate FlushedOnlyWhenFull(header: string, g: seq<seq<string>>) {
    forall k: nat :: k + 1 < |g| ==> Forced(header, g, k)
  }

  /** Every block that does not open a continuation buffer fitted in its
      buffer when it was appended. */
  predicate AppendedOnlyWhenFits(header: string, g: seq<seq<string>>) {
    forall k, j :: 0 <= k < |g| && 0 <= j < |g[k]| && (k == 0 || j > 0) ==>
      |Opening(header, k)| + |Concat(g[k][..j])| + |g[k][j]| <= ChunkLimit
  }

  lemma ContinuationBuffer(header: string, k: nat, block: string)
    requires k > 0
    ensures Buffer(header, k, [block]) == Continuation + block
  {
    ConcatSnoc<char>([], block);
  }

  lemma AppendValid(header: string, p: Packing, block: string)
    requires Valid(header, p)
    ensures Buffer(header, |p.closed|, p.open + [block]) == p.message + block
  {
    ConcatSnoc(p.open, block);
    AppendAssoc(Opening(header, |p.closed|), Concat(p.open), block);
  }

  lemma PlaceValid(header: string, p: Packing, block: string)
    requires Valid(header, p)
    ensures Valid(header, Place(p, block))
  {
    if |p.message| + |block| > ChunkLimit {
      ContinuationBuffer(header, |p.closed| + 1, block);
    } else {
      AppendValid(header, p, block);
    }
  }

  lemma PlaceConcat(p: Packing, block: string)
    ensures Placed(Place(p, block)) == Placed(p) + [block]
  {
    if |p.message| + |block| > ChunkLimit {
      ConcatSnoc(p.closed, p.open);
    } else {
      AppendAssoc(Concat(p.closed), p.open, [block]);
    }
  }

  lemma FlushKeepsFlushed(header: string, p: Packing, block: string)
    requires Valid(header, p) && FlushedOnlyWhenFull(header, Groups(p))
    requires |p.message| + |block| > ChunkLimit
    ensures FlushedOnlyWhenFull(header, Groups(p) + [[block]])
  {
    var g := Groups(p);
    var g' := g + [[block]];
    forall k: nat | k + 1 < |g'| ensures Forced(header, g', k) {
      assert g'[k] == g[k];
      if k + 1 < |g| {
        assert g'[k + 1] == g[k + 1];
        assert Forced(header, g, k);
      } else {
        assert g'[k + 1] == [block];
      }
    }
  }

  lemma AppendKeepsFlushed(header: string, p: Packing, block: string)
    requires FlushedOnlyWhenFull(header, Groups(p))
    ensures FlushedOnlyWhenFull(header, p.closed + [p.open + [block]])
  {
    var g := Groups(p);
    var g' := p.closed + [p.open + [block]];
    forall k: nat | k + 1 < |g'| ensures Forced(header, g', k) {
      assert g'[k] == g[k];
      assert Forced(header, g, k);
      assert g'[k + 1][0] == g[k + 1][0];
    }
  }

  lemma PlaceFlushedOnlyWhenFull(header: string, p: Packing, block: string)
    requires Valid(header, p) && FlushedOnlyWhenFull(header, Groups(p))
    ensures FlushedOnlyWhenFull(header, Groups(Place(p, block)))
  {
    if |p.message| + |block| > ChunkLimit {
      FlushKeepsFlushed(header, p, block);
    } else {
      AppendKeepsFlushed(header, p, block);
    }
  }

  lemma FlushKeepsFits(header: string, p: Packing, block: string)
    requires AppendedOnlyWhenFits(header, Groups(p))
    ensures AppendedOnlyWhenFits(header, Groups(p) + [[block]])
  {
    var g := Groups(p);
    var g' := g + [[block]];
    forall k, j | 0 <= k < |g'| && 0 <= j < |g'[k]| && (k == 0 || j > 0)
      ensures |Opening(header, k)| + |Concat(g'[k][..j])| + |g'[k][j]| <= ChunkLimit
    {
      assert g'[k] == g[k];
    }
  }

  lemma AppendKeepsFits(header: string, p: Packing, block: string)
    requires Valid(header, p) && AppendedOnlyWhenFits(header, Groups(p))
    requires |p.message| + |block| <= ChunkLimit
    ensures AppendedOnlyWhenFits(header, p.closed + [p.open + [block]])
  {
    var g := Groups(p);
    var n, last := |p.closed|, p.open;
    var g' := p.closed + [last + [block]];
    forall k, j | 0 <= k < |g'| && 0 <= j < |g'[k]| && (k == 0 || j > 0)
      ensures |Opening(header, k)| + |Concat(g'[k][..j])| + |g'[k][j]| <= ChunkLimit
    {
      if k < n {
        assert g'[k] == g[k];
      } else {
        TakeOfSnoc(last, block, j);
        if j < |last| {
          assert g'[k][j] == last[j] && g[k] == last;
        } else {
          assert last[..j] == last;
        }
      }
    }
  }

  lemma PlaceAppendedOnlyWhenFits(header: string, p: Packing, block: string)
    requires Valid(header, p) && AppendedOnlyWhenFits(header, Groups(p))
    ensures AppendedOnlyWhenFits(header, Groups(Place(p, block)))
  {
    if |p.message| + |block| > ChunkLimit {
      FlushKeepsFits(header, p, block);
    } else {
      AppendKeepsFits(header, p, block);
    }
  }

  /** After a placement the first group is empty exactly when it was empty
      and the block did not join it. */
  lemma PlaceEnds(header: string, p: Packing, block: string)
    requires Valid(header, p)
    ensures var p' := Place(p, block);
            FirstGroup(p') == [] <==> FirstGroup(p) == [] && (p.closed != [] || |header| + |block| > ChunkLimit)
  {
    if p.closed == [] && p.open == [] {
      assert p.message == header;
    }
  }

  /* Each property of a placement, restated for consecutive states of the
     loop, so that the inductions below never see the placement itself. */

  lemma ValidStep(header: string, blocks: seq<string>, i: nat)
    requires 0 < i <= |blocks| && Valid(header, Packed(header, blocks, i - 1))
    ensures Valid(header, Packed(header, blocks, i))
  {
    PlaceValid(header, Packed(header, blocks, i - 1), blocks[i - 1]);
  }

  lemma PlacedStep(header: string, blocks: seq<string>, i: nat)
    requires 0 < i <= |blocks|
    ensures Placed(Packed(header, blocks, i)) == Placed(Packed(header, blocks, i - 1)) + [blocks[i - 1]]
  {
    PlaceConcat(Packed(header, blocks, i - 1), blocks[i - 1]);
  }

  lemma FlushedStep(header: string, blocks: seq<string>, i: nat)
    requires 0 < i <= |blocks|
    requires Valid(header, Packed(header, blocks, i - 1))
    requires FlushedOnlyWhenFull(header, Groups(Packed(header, blocks, i - 1)))
    ensures FlushedOnlyWhenFull(header, Groups(Packed(header, blocks, i)))
  {
    PlaceFlushedOnlyWhenFull(header, Packed(header, blocks, i - 1), blocks[i - 1]);
  }

  lemma FitsStep(header: string, blocks: seq<string>, i: nat)
    requires 0 < i <= |blocks|
    requires Valid(header, Packed(header, blocks, i - 1))
    requires AppendedOnlyWhenFits(header, Groups(Packed(header, blocks, i - 1)))
    ensures AppendedOnlyWhenFits(header, Groups(Packed(header, blocks, i)))
  {
    PlaceAppendedOnlyWhenFits(header, Packed(header, blocks, i - 1), blocks[i - 1]);
  }

  lemma EndsStep(header: string, blocks: seq<string>, i: nat)
    requires 0 < i <= |blocks| && Valid(header, Packed(header, blocks, i - 1))
    ensures var p, p' := Packed(header, blocks, i - 1), Packed(header, blocks, i);
            FirstGroup(p') == [] <==> FirstGroup(p) == [] && (p.closed != [] || |header| + |blocks[i - 1]| > ChunkLimit)
  {
    PlaceEnds(header, Packed(header, blocks, i - 1), blocks[i - 1]);
  }

  /** The loop's `message` is always the text of the open group's buffer. */
  lemma {:induction false} PackedValid(header: string, blocks: seq<string>, i: nat)
    requires i <= |blocks|
    ensures Valid(header, Packed(header, blocks, i))
  {
    if i > 0 {
      PackedValid(header, blocks, i - 1);
      ValidStep(header, blocks, i);
    }
  }

  lemma {:induction false} PlacedPrefix(header: string, blocks: seq<string>, i: nat)
    requires i <= |blocks|
    ensures Placed(Packed(header, blocks, i)) == blocks[..i]
  {
    if i > 0 {
      PlacedPrefix(header, blocks, i - 1);
      PlacedStep(header, blocks, i);
      TakeSnoc(blocks, i);
    }
  }

  /** No block is lost, duplicated or reordered: the groups, joined, are
      the blocks. */
  lemma GroupsConcat(header: string, blocks: seq<string>)
    ensures Concat(Groups(Packed(header, blocks, |blocks|))) == blocks
  {
    var p := Packed(header, blocks, |blocks|);
    PlacedPrefix(header, blocks, |blocks|);
    ConcatSnoc(p.closed, p.open);
    assert blocks[..|blocks|] == blocks;
  }

  /** A buffer is flushed only when the next block would take it past the
      limit, and then that block opens the next buffer. */
  lemma {:induction false} GroupsFlushedOnlyWhenFull(header: string, blocks: seq<string>, i: nat)
    requires i <= |blocks|
    ensures FlushedOnlyWhenFull(header, Groups(Packed(header, blocks, i)))
  {
    if i > 0 {
      GroupsFlushedOnlyWhenFull(header, blocks, i - 1);
      PackedValid(header, blocks, i - 1);
      FlushedStep(header, blocks, i);
    }
  }

  /** A block is appended to the open buffer whenever the result stays
      within the limit. */
  lemma {:induction false} GroupsAppendedOnlyWhenFits(header: string, blocks: seq<string>, i: nat)
    requires i <= |blocks|
    ensures AppendedOnlyWhenFits(header, Groups(Packed(header, blocks, i)))
  {
    if i > 0 {
      GroupsAppendedOnlyWhenFits(header, blocks, i - 1);
      PackedValid(header, blocks, i - 1);
      FitsStep(header, blocks, i);
    }
  }

  /** Once a block is placed, the open group holds one. */
  lemma OpenHoldsBlock(header: string, blocks: seq<string>, i: nat)
    requires 0 < i <= |blocks|
    ensures Packed(header, blocks, i).open != []
  {
    var p := Packed(header, blocks, i - 1);
    assert Packed(header, blocks, i) == Place(p, blocks[i - 1]);
  }

  /** The first buffer holds no block exactly when there is no block or the
      header and the first block do not fit together; the header is then
      flushed on its own. */
  lemma {:induction false} HeaderAlone(header: string, blocks: seq<string>, i: nat)
    requires i <= |blocks|
    ensures FirstGroup(Packed(header, blocks, i)) == [] <==> i == 0 || |header| + |blocks[0]| > ChunkLimit
  {
    if i > 0 {
      HeaderAlone(header, blocks, i - 1);
      PackedValid(header, blocks, i - 1);
      if i > 1 {
        OpenHoldsBlock(header, blocks, i - 1);
      }
      EndsStep(header, blocks, i);
    }
  }

  /** No message is longer than the limit, except a continuation buffer
      holding one block that is too long by itself, or a first buffer that
      is the header alone. */
  lemma BuffersBounded(header: string, blocks: seq<string>)
    ensures var g := Groups(Packed(header, blocks, |blocks|));
            forall k :: 0 <= k < |g| && |Buffer(header, k, g[k])| > ChunkLimit ==>
              (k == 0 && g[0] == [] && Buffer(header, 0, g[0]) == header) || (k > 0 && |g[k]| == 1)
  {
    GroupsAppendedOnlyWhenFits(header, blocks, |blocks|);
    var g := Groups(Packed(header, blocks, |blocks|));
    forall k | 0 <= k < |g| && g[k] != [] && (k == 0 || |g[k]| > 1)
      ensures |Buffer(header, k, g[k])| <= ChunkLimit
    {
      var j := |g[k]| - 1;
      assert Concat(g[k]) == Concat(g[k][..j]) + g[k][j];
    }
  }

  /** A flush adds the loop's `message` to the flushed buffers. */
  lemma FlushStep(header: string, blocks: seq<string>, i: nat)
    requires i < |blocks|
    requires |Packed(header, blocks, i).message| + |blocks[i]| > ChunkLimit
    ensures BuffersOf(header, Packed(header, blocks, i + 1).closed) ==
            BuffersOf(header, Packed(header, blocks, i).closed) + [Packed(header, blocks, i).message]
  {
    var p := Packed(header, blocks, i);
    PackedValid(header, blocks, i);
    BuffersOfSnoc(header, p.closed, p.open);
  }

  /** At the end of the loop the open buffer goes through the guard too. */
  lemma SentSplit(header: string, blocks: seq<string>)
    ensures var p := Packed(header, blocks, |blocks|);
            Sent(header, blocks) == SendIfMeaningful(Sendable(BuffersOf(header, p.closed)), p.message)
  {
    var p := Packed(header, blocks, |blocks|);
    PackedValid(header, blocks, |blocks|);
    BuffersOfSnoc(header, p.closed, p.open);
    SendableSnoc(BuffersOf(header, p.closed), p.message);
  }

  /** A text that starts with a non-space character other than the marker's
      first passes the guard, and is sent with that start kept. */
  lemma OpeningMeaningful(text: string, j: nat)
    requires text != [] && !IsSpace(text[0]) && text[0] != Marker[0]
    requires j < |text| && !IsSpace(text[j])
    ensures Meaningful(text) && StartsWith(RStrip(text), text[..j + 1])
  {
    RStripKeeps(text, j);
    RStripKeeps(text, 0);
    StripKeepsFront(RStrip(text), 0);
  }

  /** A text that starts with a non-space character and has another one
      past the marker's length passes the guard, with that part kept. */
  lemma LongMeaningful(text: string, j: nat)
    requires text != [] && !IsSpace(text[0])
    requires |Marker| <= j < |text| && !IsSpace(text[j])
    ensures Meaningful(text) && StartsWith(RStrip(text), text[..j + 1])
  {
    RStripKeeps(text, j);
    var t := RStrip(text);
    assert t[0] == t[..j + 1][0] == text[0];
    StripKeepsFront(t, j);
  }

  /** A continuation buffer whose first block starts with a non-space
      character passes the guard, and is sent with its opening kept. */
  lemma ContinuationMeaningful(rest: string)
    requires rest != [] && !IsSpace(rest[0])
    ensures Meaningful(Continuation + rest) && StartsWith(RStrip(Continuation + rest), Continuation)
  {
    var text := Continuation + rest;
    var j := |Continuation|;
    assert text[j] == rest[0];
    assert text[0] == Continuation[0];
    LongMeaningful(text, j);
    assert text[..j + 1][..j] == Continuation;
  }

  /** The header opens the first message: it does not start with
      whitespace or with the marker's first character. */
  predicate GoodHeader(header: string) {
    header != [] && !IsSpace(header[0]) && header[0] != Marker[0]
  }

  /** Every block starts with a non-space character. */
  predicate GoodBlocks(blocks: seq<string>) {
    forall b :: b in blocks ==> b != [] && !IsSpace(b[0])
  }

  /** Every group but the first holds a block, and every block of every
      group is one of `blocks`. */
  lemma GroupShape(header: string, blocks: seq<string>, k: nat)
    requires k < |Groups(Packed(header, blocks, |blocks|))|
    requires GoodBlocks(blocks)
    ensures var g := Groups(Packed(header, blocks, |blocks|));
            (k > 0 ==> g[k] != []) && GoodBlocks(g[k])
  {
    var g := Groups(Packed(header, blocks, |blocks|));
    if k > 0 {
      GroupsFlushedOnlyWhenFull(header, blocks, |blocks|);
      assert Forced(header, g, k - 1);
    }
    GroupsConcat(header, blocks);
    forall b | b in g[k] ensures b != [] && !IsSpace(b[0]) {
      var j :| 0 <= j < |g[k]| && g[k][j] == b;
      ConcatElem(g, k, j);
    }
  }

  /** The buffer of group `k` passes the guard, and the message sent for it
      starts with the header (`k == 0`, some block joined it), is the
      right-stripped header (`k == 0`, none did), or starts with the
      continuation marker (`k > 0`). */
  lemma BufferSent(header: string, k: nat, group: seq<string>)
    requires GoodHeader(header) && GoodBlocks(group) && (k > 0 ==> group != [])
    ensures Meaningful(Buffer(header, k, group))
    ensures k == 0 && group == [] ==> RStrip(Buffer(header, k, group)) == RStrip(header)
    ensures k == 0 && group != [] ==> StartsWith(RStrip(Buffer(header, k, group)), header)
    ensures k > 0 ==> StartsWith(RStrip(Buffer(header, k, group)), Continuation)
  {
    var text := Buffer(header, k, group);
    if group != [] {
      ConcatFront(group);
      assert group[0] in group;
    }
    if k == 0 {
      if group == [] {
        assert text == header;
        OpeningMeaningful(text, 0);
      } else {
        var j := |header|;
        assert text[j] == group[0][0];
        OpeningMeaningful(text, j);
        assert text[..j + 1][..j] == header;
      }
    } else {
      ContinuationMeaningful(Concat(group));
    }
  }

  /** Groups whose buffers all pass the guard: every group but the first
      holds a block, and every block starts with a non-space character. */
  predicate GoodGroups(g: seq<seq<string>>) {
    g != [] && (forall k :: 0 < k < |g| ==> g[k] != []) && (forall k :: 0 <= k < |g| ==> GoodBlocks(g[k]))
  }

  /** The guard sends one message per buffer of good groups, the buffer
      right-stripped, opening as `BufferSent` says. */
  lemma GroupsSent(header: string, g: seq<seq<string>>)
    requires GoodHeader(header) && GoodGroups(g)
    ensures var sent := Sendable(BuffersOf(header, g));
            |sent| == |g| &&
            (forall k :: 0 <= k < |g| ==> sent[k] == RStrip(Buffer(header, k, g[k]))) &&
            (g[0] == [] ==> sent[0] == RStrip(header)) &&
            (g[0] != [] ==> StartsWith(sent[0], header)) &&
            (forall k :: 0 < k < |g| ==> StartsWith(sent[k], Continuation))
  {
    var bufs := BuffersOf(header, g);
    forall k | 0 <= k < |g| ensures Meaningful(bufs[k]) {
      BufferSent(header, k, g[k]);
    }
    SendableAll(bufs);
    BufferSent(header, 0, g[0]);
    forall k | 0 < k < |g| ensures StartsWith(Sendable(bufs)[k], Continuation) {
      BufferSent(header, k, g[k]);
    }
  }

  /** The groups the loop builds from good blocks are good. */
  lemma PackedGood(header: string, blocks: seq<string>)
    requires GoodBlocks(blocks)
    ensures GoodGroups(Groups(Packed(header, blocks, |blocks|)))
  {
    var g := Groups(Packed(header, blocks, |blocks|));
    forall k | 0 <= k < |g| ensures (k > 0 ==> g[k] != []) && GoodBlocks(g[k]) {
      GroupShape(header, blocks, k);
    }
  }

  /** With a good header and good blocks the guard never drops a buffer:
      one message per buffer, each the buffer right-stripped; the first
      opens with the header and every later one with the marker. */
  lemma SentOpenings(header: string, blocks: seq<string>)
    requires GoodHeader(header) && GoodBlocks(blocks)
    ensures var g, sent := Groups(Packed(header, blocks, |blocks|)), Sent(header, blocks);
            |sent| == |g| &&
            (forall k :: 0 <= k < |g| ==> sent[k] == RStrip(Buffer(header, k, g[k]))) &&
            (g[0] == [] ==> sent[0] == RStrip(header)) &&
            (g[0] != [] ==> StartsWith(sent[0], header)) &&
            (forall k :: 0 < k < |g| ==> StartsWith(sent[k], Continuation))
  {
    PackedGood(header, blocks);
    GroupsSent(header, Groups(Packed(header, blocks, |blocks|)));
  }

  lemma FirstChar(s: string, p: string)
    requires StartsWith(s, p) && p != []
    ensures s != [] && s[0] == p[0]
  {
    assert s[..|p|][0] == s[0];
  }

  /** With a good header and good blocks, the first message starts with
      the header's first character and every later one with the marker's. */
  lemma SentFirstChars(header: string, blocks: seq<string>)
    requires GoodHeader(header) && GoodBlocks(blocks)
    ensures var sent := Sent(header, blocks);
            sent != [] && sent[0] != [] && sent[0][0] == header[0] &&
            forall k :: 0 < k < |sent| ==> sent[k] != [] && sent[k][0] == Marker[0]
  {
    var sent := Sent(header, blocks);
    var g := Groups(Packed(header, blocks, |blocks|));
    SentOpenings(header, blocks);
    if g[0] == [] {
      RStripKeeps(header, 0);
      FirstChar(sent[0], header[..1]);
    } else {
      FirstChar(sent[0], header);
    }
    assert Continuation[0] == Marker[0];
    forall k | 0 < k < |sent| ensures sent[k] != [] && sent[k][0] == Marker[0] {
      FirstChar(sent[k], Continuation);
    }
  }

  /** The packed messages: every block is in exactly one group, in order;
      the first message opens with the header (or is the header alone, when
      the first block does not fit beside it), the others with the
      continuation marker; and no message is longer than the limit unless
      it is the header alone or holds one block. */
  lemma PackShape(header: string, blocks: seq<string>)
    requires blocks != [] && GoodHeader(header) && GoodBlocks(blocks)
    ensures var g, sent := Groups(Packed(header, blocks, |blocks|)), Sent(header, blocks);
            Concat(g) == blocks &&
            |sent| == |g| &&
            (forall k :: 0 <= k < |g| ==> sent[k] == RStrip(Buffer(header, k, g[k]))) &&
            (g[0] == [] <==> |header| + |blocks[0]| > ChunkLimit) &&
            (g[0] == [] ==> sent[0] == RStrip(header)) &&
            (g[0] != [] ==> StartsWith(sent[0], header)) &&
            (forall k :: 0 < k < |g| ==> StartsWith(sent[k], Continuation)) &&
            (forall k :: 0 <= k < |g| && |sent[k]| > ChunkLimit ==> (k == 0 && g[0] == []) || (k > 0 && |g[k]| == 1))
  {
    GroupsConcat(header, blocks);
    SentOpenings(header, blocks);
    HeaderAlone(header, blocks, |blocks|);
    BuffersBounded(header, blocks);
  }

  /** The chunking loop. `message` is the buffer being filled; a block that
      would take it past `ChunkLimit` flushes it through the meaningful-text
      guard and starts a continuation buffer. */
  method Pack(header: string, blocks: seq<string>) returns (sent: seq<string>)
    ensures sent == Sent(header, blocks)
    ensures forall t :: t in sent ==> t != [] && Strip(t) != Marker
  {
    var message := header;
    sent := [];
    for i := 0 to |blocks|
      invariant message == Packed(header, blocks, i).message
      invariant sent == Sendable(BuffersOf(header, Packed(header, blocks, i).closed))
    {
      var block := blocks[i];
      if |message| + |block| > ChunkLimit {
        FlushStep(header, blocks, i);
        SendableSnoc(BuffersOf(header, Packed(header, blocks, i).closed), message);
        sent := SendIfMeaningful(sent, message);
        message := Continuation + block;
      } else {
        message := message + block;
      }
    }
    SentSplit(header, blocks);
    sent := SendIfMeaningful(sent, message);
    SendableMeaningful(Buffers(header, blocks));
  }
}
