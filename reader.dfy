/** The generator object `read_file_in_reverse(f, chunk_size)` returns, as an
    object whose `Next` performs one `next(...)` call: it runs the `while`
    loop only until a round has a line to yield, hands out the lines of a
    round one per call, and yields the carried text once the cursor reaches
    the start. */
module Reader {
  import opened Lines
  import opened ReaderSpec

  /** The result of one `next(...)` call on the generator. */
  datatype Pull = Line(text: string) | StopIteration | IndexError

  class ReverseLineReader {
    /** The text of the source and the `chunk_size` argument. */
    const data: string
    const chunkSize: int
    /** `current_position`: where the cursor was left by the last seek. */
    var position: nat
    /** `current_chunk`: the text carried over to the next round. */
    var carry: string
    /** The lines of the current round not yet yielded, in yield order. */
    var pending: seq<string>
    /** The generator has returned or raised; every later call stops. */
    var done: bool
    /** Everything yielded so far and whether the generator raised. */
    ghost var produced: seq<string>
    ghost var raised: bool
    /** What the rounds from the cursor and the carry will yield. */
    ghost var rest: Outcome
    /** The whole output of the generator. */
    ghost const total: Outcome

    /** The state of a generator that is still running is one the `while`
        loop can reach. */
    ghost predicate Running()
      reads this
    {
      && position <= |data|
      && (chunkSize >= 1 || (position == |data| && carry == [] && pending == []))
    }

    /** What the remaining calls yield, and whether they end by raising. */
    ghost function Remaining(): Outcome
      reads this
    {
      if done then Outcome([], false) else Outcome(pending + rest.lines, rest.raised)
    }

    /** `rest` is what the rounds yield from the current cursor and carry. */
    ghost predicate Tracks()
      reads this
    {
      Follows(data, chunkSize, position, carry, rest)
    }

    /** What was yielded, followed by what is left, is the whole output of
        the generator; with a positive chunk size the cursor stays within the
        source and is at the start once the generator has finished. */
    ghost predicate Valid()
      reads this
    {
      && (!done ==> Running() && Tracks())
      && Outcome(produced + Remaining().lines, raised || Remaining().raised) == total
      && (chunkSize >= 1 ==> position <= |data| && (done ==> position == 0 && pending == []))
    }

    /** `read_file_in_reverse(f, chunk_size)` together with the first step of
        its body: the carry starts empty and the cursor at the size of the
        source. */
    constructor (data: string, chunkSize: int)
      ensures Valid()
      ensures this.data == data && this.chunkSize == chunkSize
      ensures position == |data| && carry == [] && !done
      ensures total == Remaining() == ReadInReverse(data, chunkSize)
      ensures produced == [] && !raised
    {
      this.data := data;
      this.chunkSize := chunkSize;
      position := |data|;
      carry := [];
      pending := [];
      done := false;
      produced := [];
      raised := false;
      ghost var r := ReadInReverse(data, chunkSize);
      ReadInReverseFollows(data, chunkSize);
      assert [] + r.lines == r.lines;
      rest := r;
      total := r;
    }

    /** `next(gen)`: the first item still to come, or `IndexError` when the
        generator raises instead, or `StopIteration` once it has finished.
        No chunk is read while lines of the current round are pending. */
    method Next() returns (p: Pull)
      requires Valid()
      modifies this
      ensures Valid()
      ensures var o := old(Remaining());
        if o.lines != [] then
          && p == Line(o.lines[0])
          && Remaining() == Outcome(o.lines[1..], o.raised)
          && produced == old(produced) + [o.lines[0]] && raised == old(raised)
        else if o.raised then
          p == IndexError && done && raised && produced == old(produced)
        else
          p == StopIteration && done && produced == old(produced) && raised == old(raised)
      ensures old(pending) != [] || old(done) ==> position == old(position)
    {
      if done {
        return StopIteration;
      }
      if pending == [] {
        ghost var o := Remaining();
        while pending == [] && position > 0
          invariant Valid() && !done
          invariant Remaining() == o
          invariant produced == old(produced) && raised == old(raised)
          decreases position
        {
          var failed := Advance();
          if failed {
            return IndexError;
          }
        }
      }
      p := Yield();
    }

    /** One round of the `while` loop: seek `chunkSize` below the cursor,
        read a chunk there, prepend it to the carry and split the result; the
        round's lines become pending and the first line the new carry. A
        chunk without lines raises `IndexError` at `lines[0]`. */
    method Advance() returns (failed: bool)
      requires Valid() && !done && pending == [] && position > 0
      modifies this
      ensures Valid()
      ensures failed ==> done && raised && old(Remaining()) == Outcome([], true) && produced == old(produced)
      ensures position == SeekTarget(old(position), chunkSize)
      ensures !failed ==>
        && !done && position < old(position) && Remaining() == old(Remaining())
        && produced == old(produced) && raised == old(raised)
    {
      var seekTo := Max(position - chunkSize, 0);
      var chunk := ReadAt(data, seekTo, chunkSize) + carry;
      assert chunk == Chunk(data, chunkSize, position, carry);
      var lines := SplitLines(chunk);
      if lines == [] {
        Raise(seekTo);
        return true;
      }
      var next := if |lines| > 1 then lines[0] else chunk;
      RoundYields(data, chunkSize, position, carry, lines, next);
      assert rest == Rounds(data, chunkSize, position, carry);
      FollowsRounds(data, chunkSize, seekTo, next);
      Carry(seekTo, Reverse(lines[1..]), next, Rounds(data, chunkSize, seekTo, next));
      return false;
    }

    /** A round whose chunk has no lines: `lines[0]` raises `IndexError` and
        the generator is finished. */
    method Raise(seekTo: nat)
      requires Valid() && !done && pending == [] && position > 0
      requires seekTo == SeekTarget(position, chunkSize)
      requires SplitLines(Chunk(data, chunkSize, position, carry)) == []
      modifies this
      ensures Valid() && done && raised && position == seekTo
      ensures old(Remaining()) == Outcome([], true) && produced == old(produced)
    {
      RoundRaises(data, chunkSize, position, carry);
      assert Remaining() == Outcome([], true);
      position, done, raised := seekTo, true, true;
      assert Remaining() == Outcome([], false);
      assert produced + Remaining().lines == produced;
    }

    /** A round whose chunk has lines: its later lines, latest first, become
        pending, and its first line (or the whole chunk) the new carry. */
    method Carry(seekTo: nat, yielded: seq<string>, next: string, ghost after: Outcome)
      requires Valid() && !done && pending == [] && position > 0
      requires chunkSize >= 1 && seekTo == SeekTarget(position, chunkSize) < position
      requires Follows(data, chunkSize, seekTo, next, after)
      requires rest == Outcome(yielded + after.lines, after.raised)
      modifies this
      ensures Valid() && !done && position == seekTo < old(position)
      ensures Remaining() == old(Remaining()) && produced == old(produced) && raised == old(raised)
    {
      ghost var before := Remaining();
      position, pending, carry := seekTo, yielded, next;
      rest := after;
      assert Running();
      assert Tracks();
      assert Remaining() == before;
    }

    /** The part of a `next(...)` call after the `while` loop: the next
        pending line of the round, or, once the cursor is at the start, the
        carried text as the last item. */
    method Yield() returns (p: Pull)
      requires Valid() && !done && (pending != [] || position == 0)
      modifies this
      ensures Valid()
      ensures var o := old(Remaining());
        && o.lines != []
        && p == Line(o.lines[0])
        && Remaining() == Outcome(o.lines[1..], o.raised)
        && produced == old(produced) + [o.lines[0]] && raised == old(raised)
      ensures position == old(position)
    {
      if pending != [] {
        assert (pending + rest.lines)[1..] == pending[1..] + rest.lines;
        p := Line(pending[0]);
        pending := pending[1..];
      } else {
        assert Rounds(data, chunkSize, 0, carry) == Outcome([carry], false);
        p := Line(carry);
        done := true;
      }
      produced := produced + [p.text];
      assert produced + Remaining().lines == old(produced) + old(Remaining()).lines;
    }
  }

  /** `o` is what the rounds yield from cursor `pos` with carry `c`. It is
      stated for every cursor and carry equal to these, so that a proof
      unfolds the rounds only where it names them. */
  ghost predicate Follows(data: string, chunkSize: int, pos: nat, c: string, o: Outcome) {
    forall p: nat, c': string {:trigger Rounds(data, chunkSize, p, c')} ::
      p == pos && c' == c && p <= |data| && (chunkSize >= 1 || (p == |data| && c' == [])) ==>
        o == Rounds(data, chunkSize, p, c')
  }

  lemma FollowsRounds(data: string, chunkSize: int, pos: nat, c: string)
    requires pos <= |data| && (chunkSize >= 1 || (pos == |data| && c == []))
    ensures Follows(data, chunkSize, pos, c, Rounds(data, chunkSize, pos, c))
  {
  }

  /** The whole output is what the rounds yield from the end of the source
      with an empty carry. */
  lemma ReadInReverseFollows(data: string, chunkSize: int)
    ensures Follows(data, chunkSize, |data|, [], ReadInReverse(data, chunkSize))
  {
    FollowsRounds(data, chunkSize, |data|, []);
  }

  /** A round whose chunk has no lines raises, and only a non-positive chunk
      size leaves a chunk without lines. */
  lemma RoundRaises(data: string, chunkSize: int, pos: nat, carry: string)
    requires 0 < pos <= |data|
    requires chunkSize >= 1 || (pos == |data| && carry == [])
    requires SplitLines(Chunk(data, chunkSize, pos, carry)) == []
    ensures chunkSize <= 0
    ensures Rounds(data, chunkSize, pos, carry) == Outcome([], true)
  {
  }

  /** A round whose chunk has lines moves the cursor strictly down to its
      seek target; its later lines come out first, latest first, and the
      rounds from the seek target with the new carry follow. */
  lemma RoundYields(data: string, chunkSize: int, pos: nat, carry: string, lines: seq<string>, next: string)
    requires 0 < pos <= |data|
    requires chunkSize >= 1 || (pos == |data| && carry == [])
    requires lines == SplitLines(Chunk(data, chunkSize, pos, carry)) && lines != []
    requires next == if |lines| > 1 then lines[0] else Chunk(data, chunkSize, pos, carry)
    ensures chunkSize >= 1 && SeekTarget(pos, chunkSize) < pos
    ensures Rounds(data, chunkSize, pos, carry) ==
      Outcome(Reverse(lines[1..]) + Rounds(data, chunkSize, SeekTarget(pos, chunkSize), next).lines,
              Rounds(data, chunkSize, SeekTarget(pos, chunkSize), next).raised)
  {
    assert NextCarry(data, chunkSize, pos, carry) == next;
  }
}
