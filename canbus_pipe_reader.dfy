/**
 * The CAN bus reader: it reads JSON lines from a named pipe and keeps, per
 * signal name, the last value and its time stamp in the shared cache.
 */
module CanbusPipeReader {
  import opened Wrappers
  import opened SharedData

  /** A decoded JSON line, reduced to the three keys the reader looks at. */
  datatype CanMessage = CanMessage(pgnName: Option<string>, value: Option<real>, timestamp: Option<real>)

  datatype PipeLine =
    | Blank                    // nothing left after strip()
    | Malformed                // json.loads raises, or the JSON is not an object and `message.get` raises
    | Decoded(msg: CanMessage)

  /** A line together with the clock reading taken while handling it. */
  datatype Received = Received(line: PipeLine, at: real)

  /** The line raises before the cache is touched: bad JSON, or a name without a value. */
  predicate Raises(line: PipeLine) {
    || line.Malformed?
    || (line.Decoded? && line.msg.pgnName.Some? && line.msg.value.None?)
  }

  /** The line assigns an entry in the cache. */
  predicate Stores(line: PipeLine) {
    line.Decoded? && line.msg.pgnName.Some? && line.msg.value.Some?
  }

  predicate StoresKey(r: Received, key: string) {
    Stores(r.line) && r.line.msg.pgnName.value == key
  }

  /** The entry a storing line writes: its time stamp defaults to the clock. */
  function Stored(r: Received): Entry
    requires Stores(r.line)
  {
    Entry(r.line.msg.value.value, r.line.msg.timestamp.GetOr(r.at))
  }

  /** The cache after one line has been handled. */
  function Update(entries: map<string, Entry>, r: Received): (m: map<string, Entry>)
    ensures !Stores(r.line) ==> m == entries
    ensures Stores(r.line) ==> var name := r.line.msg.pgnName.value;
      name in m && m[name] == Entry(r.line.msg.value.value, r.line.msg.timestamp.GetOr(r.at))
    ensures forall k :: !StoresKey(r, k) ==>
      (k in m <==> k in entries) && (k in m ==> m[k] == entries[k])
  {
    if Stores(r.line) then entries[r.line.msg.pgnName.value := Stored(r)] else entries
  }

  /** The cache after a stream of lines, handled in order. */
  function Replay(entries: map<string, Entry>, stream: seq<Received>): map<string, Entry>
  {
    if stream == [] then entries
    else Update(Replay(entries, stream[..|stream| - 1]), stream[|stream| - 1])
  }

  /** Number of lines that raise, that is, of times the pipe is reopened. */
  function RaisingCount(stream: seq<Received>): nat
  {
    if stream == [] then 0
    else RaisingCount(stream[..|stream| - 1]) + (if Raises(stream[|stream| - 1].line) then 1 else 0)
  }

  /** After a stream, a name holds the entry of the last line that stored it. */
  lemma {:induction false} ReplayLastWriteWins(entries: map<string, Entry>, stream: seq<Received>, key: string, j: nat)
    requires j < |stream| && StoresKey(stream[j], key)
    requires forall i :: j < i < |stream| ==> !StoresKey(stream[i], key)
    ensures key in Replay(entries, stream) && Replay(entries, stream)[key] == Stored(stream[j])
  {
    var n := |stream| - 1;
    if j < n {
      ReplayLastWriteWins(entries, stream[..n], key, j);
    }
  }

  /** A name that no line stores keeps whatever entry it had, or stays absent. */
  lemma {:induction false} ReplayUntouched(entries: map<string, Entry>, stream: seq<Received>, key: string)
    requires forall i :: 0 <= i < |stream| ==> !StoresKey(stream[i], key)
    ensures key in Replay(entries, stream) <==> key in entries
    ensures key in entries ==> Replay(entries, stream)[key] == entries[key]
  {
    if stream != [] {
      ReplayUntouched(entries, stream[..|stream| - 1], key);
    }
  }

  /**
   * The body of the inner loop for one line. It reports whether the line
   * raised, which ends the `with open(...)` block.
   */
  method HandleLine(cache: TelemetryCache, r: Received) returns (raised: bool)
    modifies cache
    ensures raised == Raises(r.line)
    ensures cache.entries == Update(old(cache.entries), r)
  {
    match r.line
    case Blank =>
      raised := false;
    case Malformed =>
      raised := true;
    case Decoded(msg) =>
      var timestamp := msg.timestamp.GetOr(r.at);
      if msg.pgnName.Some? {
        if msg.value.None? {
          raised := true;
          return;
        }
        cache.entries := cache.entries[msg.pgnName.value := Entry(msg.value.value, timestamp)];
      }
      raised := false;
  }

  /**
   * `run`: the outer loop opens the pipe, the inner loop handles lines until
   * one raises, after which the error is logged and the pipe reopened. The
   * stream ends when `running` is cleared.
   */
  method Run(cache: TelemetryCache, stream: seq<Received>) returns (reopened: nat)
    modifies cache
    ensures cache.entries == Replay(old(cache.entries), stream)
    ensures reopened == RaisingCount(stream)
  {
    var i := 0;
    reopened := 0;
    while i < |stream|
      invariant 0 <= i <= |stream|
      invariant cache.entries == Replay(old(cache.entries), stream[..i])
      invariant reopened == RaisingCount(stream[..i])
    {
      var failed := false;
      while i < |stream| && !failed
        invariant 0 <= i <= |stream|
        invariant cache.entries == Replay(old(cache.entries), stream[..i])
        invariant reopened + (if failed then 1 else 0) == RaisingCount(stream[..i])
      {
        assert stream[..i + 1][..i] == stream[..i];
        failed := HandleLine(cache, stream[i]);
        i := i + 1;
      }
      if failed {
        reopened := reopened + 1;
      }
    }
    assert stream[..|stream|] == stream;
  }
}
