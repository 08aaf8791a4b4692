/** The part of the `/logs/{relative_path}` handler that uses the reader: the
    requested number of results is clamped to the configured maximum, and
    `list(itertools.islice(reader, limit))` takes that many items. */
module Handler {
  import opened ReaderSpec
  import opened Reader

  /** The default of the `max_results` query parameter. */
  const RequestMaxResults: int := 10

  /** The default of the `max_results` setting. */
  const SettingsMaxResults: int := 100

  /** `list(islice(gen, n))`: the items taken, or the generator's
      `IndexError`, which `list` lets through. */
  datatype Taken = Taken(items: seq<string>) | Raised

  /** The reply of the handler: the lines taken, or the `ValueError` that
      `islice` raises for a negative stop. */
  datatype Reply = Found(lines: seq<string>) | NegativeLimit

  /** `min(max_results, settings.max_results)`. */
  function Limit(maxResults: int, settingsMax: int): (n: int)
    ensures n <= maxResults && n <= settingsMax
    ensures n == maxResults || n == settingsMax
  {
    Min(maxResults, settingsMax)
  }

  /** What `islice` takes from a generator whose remaining output is `o`:
      the first `min(n, available)` items, since it stops as soon as it has
      `n` of them without asking for another; the generator raises into it
      only when it runs short. */
  function TakeFrom(o: Outcome, n: nat): (t: Taken)
    ensures t.Raised? <==> o.raised && |o.lines| < n
    ensures t.Taken? ==> |t.items| == Min(n, |o.lines|) && t.items <= o.lines
  {
    if n <= |o.lines| then Taken(o.lines[..n])
    else if o.raised then Raised
    else Taken(o.lines)
  }

  /** `list(itertools.islice(reader, n))`: calls `next` until `n` items are
      out, the reader stops or it raises. */
  method Take(reader: ReverseLineReader, n: nat) returns (t: Taken)
    requires reader.Valid()
    modifies reader
    ensures reader.Valid()
    ensures t == TakeFrom(old(reader.Remaining()), n)
    ensures t.Taken? && |t.items| == n ==>
      reader.Remaining() == Outcome(old(reader.Remaining()).lines[n..], old(reader.Remaining()).raised)
    ensures !(t.Taken? && |t.items| == n) ==> reader.Remaining() == Outcome([], false)
  {
    ghost var o := reader.Remaining();
    var items: seq<string> := [];
    while |items| < n
      invariant reader.Valid()
      invariant |items| <= n && |items| <= |o.lines|
      invariant items == o.lines[..|items|]
      invariant reader.Remaining() == Outcome(o.lines[|items|..], o.raised)
      decreases n - |items|
    {
      ghost var before := reader.Remaining();
      var p := reader.Next();
      if p.Line? {
        NextLine(o.lines, |items|);
        assert before.lines[0] == o.lines[|items|];
        items := items + [p.text];
      } else if p == StopIteration {
        assert before.lines == [];
        assert o.lines[..|items|] == o.lines;
        return Taken(items);
      } else {
        assert before.lines == [] && before.raised;
        return Raised;
      }
    }
    return Taken(items);
  }

  /** Taking the item at `k` extends the prefix taken so far by one and
      leaves what follows it. */
  lemma NextLine(lines: seq<string>, k: nat)
    requires k < |lines|
    ensures lines[..k + 1] == lines[..k] + [lines[k]]
    ensures lines[k..][0] == lines[k] && lines[k..][1..] == lines[k + 1..]
  {
  }

  /** The lines the handler returns for a source holding `content`: the
      first `min(max_results, settings.max_results)` lines of the reader's
      output, or all of them when there are fewer. It never returns more
      than either maximum, and fails exactly when one of them is negative. */
  function ReadFile(content: string, maxResults: int, settingsMax: int): (r: Reply)
    ensures r.NegativeLimit? <==> maxResults < 0 || settingsMax < 0
    ensures r.Found? ==>
      && r.lines <= ReadInReverse(content, DefaultChunkSize).lines
      && |r.lines| <= maxResults && |r.lines| <= settingsMax
      && (|r.lines| < maxResults && |r.lines| < settingsMax ==> r.lines == ReadInReverse(content, DefaultChunkSize).lines)
  {
    var limit := Limit(maxResults, settingsMax);
    if limit < 0 then NegativeLimit
    else
      var lines := ReadInReverse(content, DefaultChunkSize).lines;
      Found(lines[..Min(limit, |lines|)])
  }

  /** The handler's use of the reader: build it over the source with the
      default chunk size, clamp the limit and take that many lines. */
  method HandleRead(content: string, maxResults: int, settingsMax: int) returns (r: Reply)
    ensures r == ReadFile(content, maxResults, settingsMax)
  {
    var limit := Limit(maxResults, settingsMax);
    if limit < 0 {
      return NegativeLimit;
    }
    var reader := new ReverseLineReader(content, DefaultChunkSize);
    var t := Take(reader, limit);
    match t {
      case Taken(items) =>
        return Found(items);
      case Raised =>
        assert false;
    }
  }
}
