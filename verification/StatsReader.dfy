/** The statistics reader basic-solutions/xdp_stats.c against the counters that
    common/xdp_stats_kern.h updates on every CPU, and a loader that may replace the pinned map. */
module StatsReader {
  import opened Bytes
  import opened Xdp

  const XDP_ACTION_MAX: nat := 5

  /** enum xdp_action. */
  function ActionCode(a: Action): nat {
    match a
    case Aborted => 0
    case Drop => 1
    case Pass => 2
    case Tx => 3
    case Redirect => 4
  }

  /** The keys of the map are the codes of the verdicts, each of one. */
  lemma KeysAreVerdicts(key: nat)
    ensures key < XDP_ACTION_MAX <==> exists a :: ActionCode(a) == key
    ensures forall a, b :: ActionCode(a) == ActionCode(b) ==> a == b
  {
    assert key == 0 ==> ActionCode(Aborted) == key;
    assert key == 1 ==> ActionCode(Drop) == key;
    assert key == 2 ==> ActionCode(Pass) == key;
    assert key == 3 ==> ActionCode(Tx) == key;
    assert key == 4 ==> ActionCode(Redirect) == key;
  }

  /** struct datarec, with the counts as they truly are; what is stored is each modulo 2^64. */
  datatype Datarec = Datarec(packets: nat, bytes: nat)

  function U64(n: int): u64 {
    n % 0x1_0000_0000_0000_0000
  }

  predicate AtMost(a: Datarec, b: Datarec) {
    a.packets <= b.packets && a.bytes <= b.bytes
  }

  /** The records of one map: for every action one per CPU. */
  type Records = seq<seq<Datarec>>

  predicate WellShaped(m: Records, cpus: nat) {
    |m| == XDP_ACTION_MAX && forall k :: 0 <= k < |m| ==> |m[k]| == cpus
  }

  predicate CpusGrown(a: seq<Datarec>, b: seq<Datarec>) {
    |a| == |b| && forall c :: 0 <= c < |a| ==> AtMost(a[c], b[c])
  }

  predicate Grown(a: Records, b: Records) {
    |a| == |b| && forall k :: 0 <= k < |a| ==> CpusGrown(a[k], b[k])
  }

  /** No map forgets a count; map ids are not reused. */
  predicate AllGrown(a: map<nat, Records>, b: map<nat, Records>) {
    forall id :: id in a ==> id in b && Grown(a[id], b[id])
  }

  function Total(cpus: seq<Datarec>): Datarec {
    if |cpus| == 0 then Datarec(0, 0)
    else
      var t := Total(cpus[..|cpus| - 1]);
      Datarec(t.packets + cpus[|cpus| - 1].packets, t.bytes + cpus[|cpus| - 1].bytes)
  }

  lemma {:induction false} TotalOfZeros(cpus: seq<Datarec>)
    requires forall c :: 0 <= c < |cpus| ==> cpus[c] == Datarec(0, 0)
    ensures Total(cpus) == Datarec(0, 0)
  {
    if |cpus| > 0 {
      TotalOfZeros(cpus[..|cpus| - 1]);
    }
  }

  /** Every record counts in the total exactly once. */
  lemma {:induction false} TotalUpdated(cpus: seq<Datarec>, c: nat, d: Datarec)
    requires c < |cpus|
    ensures Total(cpus[c := d]).packets == Total(cpus).packets - cpus[c].packets + d.packets
    ensures Total(cpus[c := d]).bytes == Total(cpus).bytes - cpus[c].bytes + d.bytes
  {
    var n := |cpus| - 1;
    if c == n {
      assert cpus[c := d][..n] == cpus[..n];
    } else {
      assert cpus[c := d][..n] == cpus[..n][c := d];
      TotalUpdated(cpus[..n], c, d);
    }
  }

  /** A record added on one CPU raises the total by its packets and bytes, whichever CPU it is. */
  lemma TotalRaised(cpus: seq<Datarec>, c: nat, packets: nat, bytes: nat)
    requires c < |cpus|
    ensures Total(cpus[c := Datarec(cpus[c].packets + packets, cpus[c].bytes + bytes)])
         == Datarec(Total(cpus).packets + packets, Total(cpus).bytes + bytes)
  {
    TotalUpdated(cpus, c, Datarec(cpus[c].packets + packets, cpus[c].bytes + bytes));
  }

  lemma {:induction false} TotalGrown(a: seq<Datarec>, b: seq<Datarec>)
    requires CpusGrown(a, b)
    ensures AtMost(Total(a), Total(b))
  {
    if |a| > 0 {
      TotalGrown(a[..|a| - 1], b[..|b| - 1]);
    }
  }

  lemma GrownTransitive(a: map<nat, Records>, b: map<nat, Records>, c: map<nat, Records>)
    requires AllGrown(a, b) && AllGrown(b, c)
    ensures AllGrown(a, c)
  {
    forall id | id in a ensures id in c && Grown(a[id], c[id]) {
      forall k | 0 <= k < |a[id]| ensures CpusGrown(a[id][k], c[id][k]) {
        assert CpusGrown(a[id][k], b[id][k]) && CpusGrown(b[id][k], c[id][k]);
      }
    }
  }

  lemma GrownReflexive(a: map<nat, Records>)
    ensures AllGrown(a, a)
  {
  }

  lemma ModShift64(x: int, k: int)
    ensures U64(x + k * 0x1_0000_0000_0000_0000) == U64(x)
  {
  }

  lemma U64Sum(a: nat, b: nat)
    ensures U64(U64(a) + U64(b)) == U64(a + b)
  {
    var q := a / 0x1_0000_0000_0000_0000 + b / 0x1_0000_0000_0000_0000;
    assert a + b == U64(a) + U64(b) + q * 0x1_0000_0000_0000_0000;
    ModShift64(U64(a) + U64(b), q);
  }

  lemma U64Difference(a: nat, b: nat)
    requires a <= b
    ensures U64(U64(b) - U64(a)) == U64(b - a)
  {
    var q := b / 0x1_0000_0000_0000_0000 - a / 0x1_0000_0000_0000_0000;
    assert b - a == U64(b) - U64(a) + q * 0x1_0000_0000_0000_0000;
    ModShift64(U64(b) - U64(a), q);
  }

  /** One total as the reader got it: exact lies between the total before the reading began and
      the total after it ended. */
  datatype Reading = Reading(id: nat, key: nat, before: Datarec, exact: Datarec, after: Datarec)

  predicate Sound(r: Reading) {
    AtMost(r.before, r.exact) && AtMost(r.exact, r.after)
  }

  /** What is stored for a reading. */
  predicate Stores(v: (u64, u64), r: Reading) {
    v == (U64(r.exact.packets), U64(r.exact.bytes))
  }

  /** v is what the reader stored for action k of map id, and the reading ended before m. */
  predicate CollectedBy(id: nat, k: nat, v: (u64, u64), r: Reading, m: map<nat, Records>) {
    && r.id == id && r.key == k && Sound(r) && Stores(v, r)
    && id in m && k < |m[id]| && AtMost(r.after, Total(m[id][k]))
  }

  /** And it began after m0. */
  predicate Collected(id: nat, k: nat, v: (u64, u64), r: Reading, m0: map<nat, Records>, m: map<nat, Records>) {
    && CollectedBy(id, k, v, r, m)
    && id in m0 && k < |m0[id]| && AtMost(Total(m0[id][k]), r.before)
  }

  predicate Comparable(prev: Reading, rec: Reading) {
    prev.id == rec.id && prev.key == rec.key && Sound(prev) && Sound(rec) && AtMost(prev.after, rec.before)
  }

  lemma TotalsGrown(a: map<nat, Records>, b: map<nat, Records>, id: nat, k: nat)
    requires AllGrown(a, b) && id in a && k < |a[id]|
    ensures id in b && k < |b[id]| && AtMost(Total(a[id][k]), Total(b[id][k]))
  {
    assert Grown(a[id], b[id]);
    TotalGrown(a[id][k], b[id][k]);
  }

  /** Two rounds of one session can be compared: the counters only grow in between. */
  lemma RoundsComparable(id: nat, k: nat, prev: (u64, u64), p: Reading, rec: (u64, u64), r: Reading,
                         past: map<nat, Records>, now: map<nat, Records>, m: map<nat, Records>)
    requires CollectedBy(id, k, prev, p, past) && AllGrown(past, now) && Collected(id, k, rec, r, now, m)
    ensures Comparable(p, r)
  {
    TotalsGrown(past, now, id, k);
  }

  /** Reading one more CPU: its value lies between those at the start and now. */
  lemma ReadNext(start: Records, before: Records, m: Records, key: nat, c: nat, exact: seq<Datarec>)
    requires Grown(start, before) && Grown(before, m) && key < |start| && c < |start[key]| && |exact| == c
    requires CpusGrown(start[key][..c], exact) && CpusGrown(exact, before[key][..c])
    ensures Grown(start, m)
    ensures CpusGrown(start[key][..c + 1], exact + [m[key][c]]) && CpusGrown(exact + [m[key][c]], m[key][..c + 1])
  {
    assert CpusGrown(start[key], before[key]) && CpusGrown(before[key], m[key]);
    forall k | 0 <= k < |start| ensures CpusGrown(start[k], m[k]) {
      assert CpusGrown(start[k], before[k]) && CpusGrown(before[k], m[k]);
    }
    var e, s, t := exact + [m[key][c]], start[key][..c + 1], m[key][..c + 1];
    forall i | 0 <= i < c + 1 ensures AtMost(s[i], e[i]) && AtMost(e[i], t[i]) {
      if i < c {
        assert AtMost(start[key][..c][i], exact[i]) && AtMost(exact[i], before[key][..c][i]);
        assert AtMost(before[key][i], m[key][i]);
      } else {
        assert AtMost(start[key][c], before[key][c]) && AtMost(before[key][c], m[key][c]);
      }
    }
  }

  /** A printed line: the growth of one action's counters. */
  datatype Line = Line(packets: u64, bytes: u64)

  /** The two readings a printed line compares. */
  datatype Source = Source(prev: Reading, rec: Reading)

  /** What a printed line means. Both readings are of the same map and action; the second began
      after the first had ended; the difference is the true growth between them, which is
      negative for neither counter, and 64-bit wrap-around of the stored counts does not show. */
  ghost predicate Explains(src: Source, line: Line) {
    && src.prev.id == src.rec.id && src.prev.key == src.rec.key
    && Sound(src.prev) && Sound(src.rec) && AtMost(src.prev.after, src.rec.before)
    && line.packets == U64(src.rec.exact.packets - src.prev.exact.packets)
    && line.bytes == U64(src.rec.exact.bytes - src.prev.exact.bytes)
  }

  /** So a line is bounded from both sides by true totals, if fewer than 2^64 packets arrived in
      between, and never shows a negative difference as a huge one. */
  lemma LineIsGrowth(src: Source, line: Line)
    requires Explains(src, line)
    requires src.rec.after.packets - src.prev.before.packets < 0x1_0000_0000_0000_0000
    requires src.rec.after.bytes - src.prev.before.bytes < 0x1_0000_0000_0000_0000
    ensures src.rec.before.packets - src.prev.after.packets <= line.packets
    ensures line.packets <= src.rec.after.packets - src.prev.before.packets
    ensures src.rec.before.bytes - src.prev.after.bytes <= line.bytes <= src.rec.after.bytes - src.prev.before.bytes
  {
  }

  /** The pairs of readings behind the lines of one round. */
  function Pairs(prevs: seq<Reading>, recs: seq<Reading>): (pairs: seq<Source>)
    requires |prevs| == |recs|
    ensures |pairs| == |recs|
  {
    seq(|recs|, k requires 0 <= k < |recs| => Source(prevs[k], recs[k]))
  }

  /** The session's first line for the action of line i, if the session starts at line start. */
  function FirstLine(start: nat, i: nat): (first: nat)
    ensures start <= i ==> start <= first <= i
  {
    if i < start + XDP_ACTION_MAX then i else FirstLine(start, i - XDP_ACTION_MAX)
  }

  /** The lines from number start on are those of one session on map id: one line for each action
      in turn, and each starts from the reading the line a round earlier ended with. */
  ghost predicate Session(sources: seq<Source>, start: nat, id: nat) {
    start <= |sources| && forall i {:trigger sources[i]} :: start <= i < |sources| ==>
      SessionLine(sources, start, id, i)
  }

  predicate SessionLine(sources: seq<Source>, start: nat, id: nat, i: nat)
    requires start <= i < |sources|
  {
    && sources[i].rec.id == id && start + sources[i].rec.key == FirstLine(start, i)
    && (i - XDP_ACTION_MAX >= start ==> sources[i].prev == sources[i - XDP_ACTION_MAX].rec)
  }

  /** recs are the readings of the latest round. */
  ghost predicate Latest(sources: seq<Source>, start: nat, recs: seq<Reading>) {
    start + XDP_ACTION_MAX <= |sources| && |recs| == XDP_ACTION_MAX &&
    forall k :: 0 <= k < XDP_ACTION_MAX ==> recs[k] == sources[|sources| - XDP_ACTION_MAX + k].rec
  }

  /** One reading for each action. */
  predicate ForActions(recs: seq<Reading>, id: nat) {
    |recs| == XDP_ACTION_MAX && forall k :: 0 <= k < XDP_ACTION_MAX ==> recs[k].id == id && recs[k].key == k
  }

  /** Another round continues the session. */
  lemma SessionNext(sources: seq<Source>, start: nat, id: nat, prevs: seq<Reading>, recs: seq<Reading>)
    requires Session(sources, start, id) && ForActions(prevs, id) && ForActions(recs, id)
    requires |sources| == start || Latest(sources, start, prevs)
    ensures Session(sources + Pairs(prevs, recs), start, id) && Latest(sources + Pairs(prevs, recs), start, recs)
  {
    var pairs := Pairs(prevs, recs);
    forall k | 0 <= k < XDP_ACTION_MAX ensures RoundLine(sources, pairs, start, k) {
      LineOfRound(sources, start, id, prevs, k);
    }
    SessionGrows(sources, pairs, start, id);
    LatestRound(sources, pairs, start, recs);
  }

  /** Line k of a further round continues its action. */
  predicate RoundLine(sources: seq<Source>, pairs: seq<Source>, start: nat, k: nat)
    requires start <= |sources| && k < |pairs| == XDP_ACTION_MAX
  {
    && FirstLine(start, |sources| + k) == start + k
    && (|sources| + k - XDP_ACTION_MAX >= start ==> sources[|sources| + k - XDP_ACTION_MAX].rec == pairs[k].prev)
  }

  lemma SessionGrows(sources: seq<Source>, pairs: seq<Source>, start: nat, id: nat)
    requires Session(sources, start, id) && |pairs| == XDP_ACTION_MAX
    requires forall k :: 0 <= k < XDP_ACTION_MAX ==> pairs[k].rec.id == id && pairs[k].rec.key == k
    requires forall k {:trigger pairs[k]} :: 0 <= k < XDP_ACTION_MAX ==> RoundLine(sources, pairs, start, k)
    ensures Session(sources + pairs, start, id)
  {
    var more := sources + pairs;
    forall i | start <= i < |more| ensures SessionLine(more, start, id, i) {
      if i < |sources| {
        OldLine(sources, pairs, start, id, i);
      } else {
        NewLine(sources, pairs, start, id, i - |sources|);
      }
    }
  }

  lemma LatestRound(sources: seq<Source>, pairs: seq<Source>, start: nat, recs: seq<Reading>)
    requires start <= |sources| && |pairs| == |recs| == XDP_ACTION_MAX
    requires forall k :: 0 <= k < XDP_ACTION_MAX ==> pairs[k].rec == recs[k]
    ensures Latest(sources + pairs, start, recs)
  {
    assert forall k :: 0 <= k < XDP_ACTION_MAX ==> (sources + pairs)[|sources| + k] == pairs[k];
  }

  lemma OldLine(sources: seq<Source>, pairs: seq<Source>, start: nat, id: nat, i: nat)
    requires start <= i < |sources| && SessionLine(sources, start, id, i)
    ensures SessionLine(sources + pairs, start, id, i)
  {
    assert forall j :: 0 <= j <= i ==> (sources + pairs)[j] == sources[j];
  }

  lemma NewLine(sources: seq<Source>, pairs: seq<Source>, start: nat, id: nat, k: nat)
    requires start <= |sources| && k < |pairs| == XDP_ACTION_MAX && pairs[k].rec.id == id && pairs[k].rec.key == k
    requires RoundLine(sources, pairs, start, k)
    ensures SessionLine(sources + pairs, start, id, |sources| + k)
  {
    var more := sources + pairs;
    assert more[|sources| + k] == pairs[k];
    if |sources| + k - XDP_ACTION_MAX >= start {
      assert more[|sources| + k - XDP_ACTION_MAX] == sources[|sources| + k - XDP_ACTION_MAX];
    }
  }

  lemma LineOfRound(sources: seq<Source>, start: nat, id: nat, prevs: seq<Reading>, k: nat)
    requires Session(sources, start, id) && ForActions(prevs, id) && k < XDP_ACTION_MAX
    requires |sources| == start || Latest(sources, start, prevs)
    ensures FirstLine(start, |sources| + k) == start + k
    ensures |sources| > start ==> sources[|sources| + k - XDP_ACTION_MAX].rec == prevs[k]
  {
    if |sources| > start {
      var i := |sources| - XDP_ACTION_MAX + k;
      assert prevs[k] == sources[i].rec;
    }
  }

  /** What the lines show for that action, added up from the session's first line to line i. */
  function Printed(lines: seq<Line>, start: nat, i: nat): Datarec
    requires i < |lines|
    decreases i
  {
    if i < start + XDP_ACTION_MAX then Datarec(lines[i].packets, lines[i].bytes)
    else
      var before := Printed(lines, start, i - XDP_ACTION_MAX);
      Datarec(lines[i].packets + before.packets, lines[i].bytes + before.bytes)
  }

  /** sum is the growth from first to last, modulo 2^64. */
  predicate IsGrowth(sum: Datarec, first: Datarec, last: Datarec) {
    U64(sum.packets) == U64(last.packets - first.packets) && U64(sum.bytes) == U64(last.bytes - first.bytes)
  }

  /** The same with the wrap-arounds counted. */
  predicate GrowthWith(sum: Datarec, first: Datarec, last: Datarec, packetWraps: int, byteWraps: int) {
    && sum.packets + packetWraps * 0x1_0000_0000_0000_0000 == last.packets - first.packets
    && sum.bytes + byteWraps * 0x1_0000_0000_0000_0000 == last.bytes - first.bytes
  }

  lemma GrowthOfWraps(sum: Datarec, first: Datarec, last: Datarec, packetWraps: int, byteWraps: int)
    requires GrowthWith(sum, first, last, packetWraps, byteWraps)
    ensures IsGrowth(sum, first, last)
  {
    ModShift64(sum.packets, packetWraps);
    ModShift64(sum.bytes, byteWraps);
  }

  ghost predicate AllExplained(sources: seq<Source>, lines: seq<Line>) {
    |sources| == |lines| &&
    forall k {:trigger Explains(sources[k], lines[k])} :: 0 <= k < |lines| ==> Explains(sources[k], lines[k])
  }

  lemma LineWraps(sources: seq<Source>, lines: seq<Line>, i: nat) returns (packetWraps: int, byteWraps: int)
    requires AllExplained(sources, lines) && i < |lines|
    ensures GrowthWith(Datarec(lines[i].packets, lines[i].bytes), sources[i].prev.exact, sources[i].rec.exact,
                       packetWraps, byteWraps)
  {
    var src, line := sources[i], lines[i];
    assert Explains(sources[i], lines[i]);
    packetWraps := (src.rec.exact.packets - src.prev.exact.packets) / 0x1_0000_0000_0000_0000;
    byteWraps := (src.rec.exact.bytes - src.prev.exact.bytes) / 0x1_0000_0000_0000_0000;
  }

  lemma {:induction false} WrapsAddUp(lines: seq<Line>, sources: seq<Source>, start: nat, id: nat, i: nat)
    returns (packetWraps: int, byteWraps: int)
    requires |lines| == |sources| && Session(sources, start, id) && start <= i < |lines|
    requires AllExplained(sources, lines)
    ensures GrowthWith(Printed(lines, start, i), sources[FirstLine(start, i)].prev.exact, sources[i].rec.exact,
                       packetWraps, byteWraps)
    decreases i
  {
    packetWraps, byteWraps := LineWraps(sources, lines, i);
    if i >= start + XDP_ACTION_MAX {
      var p, b := WrapsAddUp(lines, sources, start, id, i - XDP_ACTION_MAX);
      packetWraps, byteWraps := packetWraps + p, byteWraps + b;
    }
  }

  /** What the lines of a session show for one action adds up to the growth between its first and
      its last reading: no packet and no byte is shown twice or left out between the rounds. */
  lemma PrintedAddsUp(lines: seq<Line>, sources: seq<Source>, start: nat, id: nat, i: nat)
    requires |lines| == |sources| && Session(sources, start, id) && start <= i < |lines|
    requires AllExplained(sources, lines)
    ensures IsGrowth(Printed(lines, start, i), sources[FirstLine(start, i)].prev.exact, sources[i].rec.exact)
  {
    var p, b := WrapsAddUp(lines, sources, start, id, i);
    GrowthOfWraps(Printed(lines, start, i), sources[FirstLine(start, i)].prev.exact, sources[i].rec.exact, p, b);
  }

  // ----- session after session

  /** The lines from start to end, printed for map id. */
  datatype Part = Part(start: nat, end: nat, id: nat)

  /** The lines from number start on are those of the sessions in parts, one behind the other. */
  ghost predicate Sessions(sources: seq<Source>, start: nat, parts: seq<Part>)
    decreases |parts|
  {
    if |parts| == 0 then |sources| == start
    else
      var p := parts[|parts| - 1];
      && p.start <= p.end == |sources| && Session(sources, p.start, p.id)
      && Sessions(sources[..p.start], start, parts[..|parts| - 1])
  }

  lemma SessionsNext(past: seq<Source>, sources: seq<Source>, start: nat, parts: seq<Part>, id: nat)
    requires Sessions(past, start, parts) && past <= sources && Session(sources, |past|, id)
    ensures Sessions(sources, start, parts + [Part(|past|, |sources|, id)])
  {
    var parts' := parts + [Part(|past|, |sources|, id)];
    assert parts'[..|parts|] == parts && sources[..|past|] == past;
  }

  lemma {:induction false} PartIsSession(sources: seq<Source>, start: nat, parts: seq<Part>, k: nat)
    requires Sessions(sources, start, parts) && k < |parts|
    ensures parts[k].start <= parts[k].end <= |sources|
    ensures Session(sources[..parts[k].end], parts[k].start, parts[k].id)
    decreases |parts|
  {
    var p := parts[|parts| - 1];
    if k == |parts| - 1 {
      assert sources[..|sources|] == sources;
    } else {
      PartIsSession(sources[..p.start], start, parts[..|parts| - 1], k);
      assert sources[..p.start][..parts[k].end] == sources[..parts[k].end];
    }
  }

  /** Over the loop of main, the lines of each session add up. */
  lemma RunAddsUp(lines: seq<Line>, sources: seq<Source>, start: nat, parts: seq<Part>, k: nat, i: nat)
    requires |lines| == |sources| && Sessions(sources, start, parts)
    requires k < |parts| && parts[k].start <= i < parts[k].end <= |lines|
    requires AllExplained(sources, lines)
    ensures sources[i].rec.id == parts[k].id
    ensures IsGrowth(Printed(lines[..parts[k].end], parts[k].start, i),
                     sources[FirstLine(parts[k].start, i)].prev.exact, sources[i].rec.exact)
  {
    var p := parts[k];
    PartIsSession(sources, start, parts, k);
    PrintedAddsUp(lines[..p.end], sources[..p.end], p.start, p.id, i);
  }

  // ----- the pinned map

  /** The pinned map is still p, or one created since: a map once replaced is never pinned again. */
  predicate Moved(maps: map<nat, Records>, p: nat, pinned: nat) {
    pinned == p || pinned !in maps
  }

  /** A session of at most so many rounds: a line for each action a round, and fewer rounds only
      because another map is pinned now. */
  predicate Polled(p: Part, rounds: nat, maps: map<nat, Records>, pinned: nat) {
    && p.id in maps && p.start <= p.end <= p.start + XDP_ACTION_MAX * rounds
    && (p.end - p.start) % XDP_ACTION_MAX == 0
    && (p.end - p.start < XDP_ACTION_MAX * rounds ==> pinned != p.id)
  }

  lemma PolledStays(p: Part, rounds: nat, a: map<nat, Records>, pinned: nat, b: map<nat, Records>, pinned': nat)
    requires Polled(p, rounds, a, pinned) && AllGrown(a, b) && Moved(a, pinned, pinned')
    ensures Polled(p, rounds, b, pinned')
  {
  }

  /** Each of the parts is such a session, on the map p that was pinned first or on one created
      since, in old maps m. */
  ghost predicate AllPolled(parts: seq<Part>, rounds: seq<nat>, m: map<nat, Records>, p: nat,
                            maps: map<nat, Records>, pinned: nat) {
    |parts| <= |rounds| &&
    forall k :: 0 <= k < |parts| ==> Polled(parts[k], rounds[k], maps, pinned) && Moved(m, p, parts[k].id)
  }

  lemma AllPolledStay(parts: seq<Part>, rounds: seq<nat>, m: map<nat, Records>, p: nat,
                      a: map<nat, Records>, pinned: nat, b: map<nat, Records>, pinned': nat)
    requires AllPolled(parts, rounds, m, p, a, pinned) && AllGrown(a, b) && Moved(a, pinned, pinned')
    ensures AllPolled(parts, rounds, m, p, b, pinned')
  {
    forall k | 0 <= k < |parts| ensures Polled(parts[k], rounds[k], b, pinned') {
      PolledStays(parts[k], rounds[k], a, pinned, b, pinned');
    }
  }

  lemma MovedTransitive(a: map<nat, Records>, p: nat, b: map<nat, Records>, q: nat, r: nat)
    requires Moved(a, p, q) && AllGrown(a, b) && Moved(b, q, r)
    ensures Moved(a, p, r)
  {
  }

  /** What can happen while the reader is not looking. */
  datatype Move = Recorded(id: nat, cpu: nat, action: nat, len: nat) | Repinned(id: nat)

  class World {
    const cpus: nat
    /** The id of the map pinned for the interface, and all maps ever created. */
    var pinned: nat
    var maps: map<nat, Records>
    /** The lines printed so far, and what they compare. */
    var printed: seq<Line>
    ghost var sources: seq<Source>

    ghost predicate Valid()
      reads this
    {
      && pinned in maps && (forall id :: id in maps ==> WellShaped(maps[id], cpus))
      && AllExplained(sources, printed)
    }

    constructor (cpus: nat, id: nat, records: Records)
      requires WellShaped(records, cpus)
      ensures Valid() && this.cpus == cpus && pinned == id && maps == map[id := records] && printed == []
    {
      this.cpus, pinned, maps, printed, sources := cpus, id, map[id := records], [], [];
    }

    /** xdp_stats_record_action on one CPU, for a packet of len bytes. */
    method RecordAction(id: nat, cpu: nat, action: nat, len: nat) returns (verdict: nat)
      requires Valid() && id in maps && cpu < cpus
      modifies this`maps
      ensures Valid() && AllGrown(old(maps), maps)
      ensures action >= XDP_ACTION_MAX ==> verdict == 0 && maps == old(maps)
      ensures action < XDP_ACTION_MAX ==>
                && verdict == action
                && maps == old(maps)[id := old(maps)[id][action := old(maps)[id][action][cpu :=
                     Datarec(old(maps)[id][action][cpu].packets + 1, old(maps)[id][action][cpu].bytes + len)]]]
      ensures action < XDP_ACTION_MAX ==>
                && Total(maps[id][action]).packets == Total(old(maps)[id][action]).packets + 1
                && Total(maps[id][action]).bytes == Total(old(maps)[id][action]).bytes + len
    {
      if action >= XDP_ACTION_MAX {
        GrownReflexive(maps);
        return 0;
      }
      TotalRaised(maps[id][action], cpu, 1, len);
      var rec := maps[id][action][cpu];
      rec := Datarec(rec.packets + 1, rec.bytes + len);
      maps := maps[id := maps[id][action := maps[id][action][cpu := rec]]];
      return action;
    }

    /** The loader creates a fresh map and pins it in place of the old one. */
    method Repin(id: nat)
      requires Valid() && id !in maps
      modifies this`maps, this`pinned
      ensures Valid() && AllGrown(old(maps), maps) && pinned == id
      ensures id in maps && maps == old(maps)[id := maps[id]]
      ensures forall k :: 0 <= k < XDP_ACTION_MAX ==> Total(maps[id][k]) == Datarec(0, 0)
    {
      var zeros := seq(XDP_ACTION_MAX, _ => seq(cpus, _ => Datarec(0, 0)));
      forall k | 0 <= k < XDP_ACTION_MAX ensures Total(zeros[k]) == Datarec(0, 0) {
        TotalOfZeros(zeros[k]);
      }
      maps := maps[id := zeros];
      pinned := id;
    }

    /** One move, if it is possible: a record goes to an existing map and CPU, a map that is pinned
        is new. */
    method Make(move: Move)
      requires Valid()
      modifies this`maps, this`pinned
      ensures Valid() && AllGrown(old(maps), maps) && Moved(old(maps), old(pinned), pinned)
    {
      GrownReflexive(maps);
      match move
      case Recorded(id, cpu, action, len) =>
        if id in maps && cpu < cpus {
          var _ := RecordAction(id, cpu, action, len);
        }
      case Repinned(id) =>
        if id !in maps {
          Repin(id);
        }
    }

    /** Whatever the CPUs and the loader do while the reader is not looking: any number of moves. */
    method Interfere()
      requires Valid()
      modifies this`maps, this`pinned
      ensures Valid() && AllGrown(old(maps), maps) && Moved(old(maps), old(pinned), pinned)
    {
      var moves: seq<Move> := *;
      GrownReflexive(maps);
      for i := 0 to |moves|
        invariant Valid() && AllGrown(old(maps), maps) && Moved(old(maps), old(pinned), pinned)
      {
        ghost var before, p := maps, pinned;
        Make(moves[i]);
        MovedTransitive(old(maps), old(pinned), before, p, pinned);
        GrownTransitive(old(maps), before, maps);
      }
    }

    /** bpf_map_lookup_elem on a per-CPU map: the values are copied one CPU after the other, and
        the counters go on meanwhile. */
    method Lookup(id: nat, key: nat) returns (values: seq<(u64, u64)>, ghost exact: seq<Datarec>)
      requires Valid() && id in maps && key < XDP_ACTION_MAX
      modifies this
      ensures Valid() && AllGrown(old(maps), maps) && printed == old(printed) && sources == old(sources)
      ensures Moved(old(maps), old(pinned), pinned)
      ensures |values| == |exact| == cpus
      ensures CpusGrown(old(maps)[id][key], exact) && CpusGrown(exact, maps[id][key])
      ensures forall c :: 0 <= c < cpus ==> values[c] == (U64(exact[c].packets), U64(exact[c].bytes))
    {
      values, exact := [], [];
      ghost var start := maps;
      GrownReflexive(maps);
      for c := 0 to cpus
        invariant Valid() && AllGrown(start, maps) && printed == old(printed) && sources == old(sources)
        invariant Moved(start, old(pinned), pinned)
        invariant |values| == |exact| == c
        invariant CpusGrown(start[id][key][..c], exact) && CpusGrown(exact, maps[id][key][..c])
        invariant forall i :: 0 <= i < c ==> values[i] == (U64(exact[i].packets), U64(exact[i].bytes))
      {
        ghost var before, p := maps, pinned;
        Interfere();
        MovedTransitive(start, old(pinned), before, p, pinned);
        GrownTransitive(start, before, maps);
        ReadNext(start[id], before[id], maps[id], key, c, exact);
        values := values + [(U64(maps[id][key][c].packets), U64(maps[id][key][c].bytes))];
        exact := exact + [maps[id][key][c]];
      }
      assert start[id][key][..cpus] == start[id][key] && maps[id][key][..cpus] == maps[id][key];
    }

    /** map_get_value_percpu_array: the values of one key, summed in 64 bits. */
    method MapGetValuePercpuArray(id: nat, key: nat) returns (value: (u64, u64), ghost r: Reading)
      requires Valid() && id in maps && key < XDP_ACTION_MAX
      modifies this
      ensures Valid() && AllGrown(old(maps), maps) && printed == old(printed) && sources == old(sources)
      ensures Moved(old(maps), old(pinned), pinned)
      ensures Sound(r) && r.id == id && r.key == key
      ensures r.before == Total(old(maps)[id][key]) && r.after == Total(maps[id][key])
      ensures value == (U64(r.exact.packets), U64(r.exact.bytes))
    {
      ghost var before := Total(maps[id][key]);
      ghost var start := maps[id][key];
      var values, exact := Lookup(id, key);
      TotalGrown(start, exact);
      TotalGrown(exact, maps[id][key]);
      r := Reading(id, key, before, Total(exact), Total(maps[id][key]));
      value := SumValues(values, exact);
    }

    /** The summing loop. */
    static method SumValues(values: seq<(u64, u64)>, ghost exact: seq<Datarec>) returns (value: (u64, u64))
      requires |values| == |exact|
      requires forall c :: 0 <= c < |values| ==> values[c] == (U64(exact[c].packets), U64(exact[c].bytes))
      ensures value == (U64(Total(exact).packets), U64(Total(exact).bytes))
    {
      var sumPkts: u64, sumBytes: u64 := 0, 0;
      for c := 0 to |values|
        invariant sumPkts == U64(Total(exact[..c]).packets) && sumBytes == U64(Total(exact[..c]).bytes)
      {
        assert exact[..c + 1][..c] == exact[..c];
        U64Sum(Total(exact[..c]).packets, exact[c].packets);
        U64Sum(Total(exact[..c]).bytes, exact[c].bytes);
        sumPkts := U64(sumPkts + values[c].0);
        sumBytes := U64(sumBytes + values[c].1);
      }
      assert exact[..|values|] == exact;
      value := (sumPkts, sumBytes);
    }

    /** stats_collect: all actions, one after the other. */
    method StatsCollect(id: nat) returns (record: seq<(u64, u64)>, ghost readings: seq<Reading>)
      requires Valid() && id in maps
      modifies this
      ensures Valid() && AllGrown(old(maps), maps) && printed == old(printed) && sources == old(sources)
      ensures Moved(old(maps), old(pinned), pinned)
      ensures |record| == |readings| == XDP_ACTION_MAX
      ensures forall k :: 0 <= k < XDP_ACTION_MAX ==> Collected(id, k, record[k], readings[k], old(maps), maps)
    {
      record, readings := [], [];
      ghost var start := maps;
      GrownReflexive(maps);
      for key := 0 to XDP_ACTION_MAX
        invariant Valid() && AllGrown(start, maps) && printed == old(printed) && sources == old(sources)
        invariant Moved(start, old(pinned), pinned)
        invariant |record| == |readings| == key
        invariant forall k :: 0 <= k < key ==> Collected(id, k, record[k], readings[k], start, maps)
      {
        ghost var before, p := maps, pinned;
        var value; ghost var r;
        value, r := MapGetValuePercpuArray(id, key);
        MovedTransitive(start, old(pinned), before, p, pinned);
        GrownTransitive(start, before, maps);
        forall k | 0 <= k < key ensures Collected(id, k, record[k], readings[k], start, maps) {
          TotalsGrown(before, maps, id, k);
        }
        TotalsGrown(start, before, id, key);
        record, readings := record + [value], readings + [r];
      }
    }

    /** stats_print: one line for each action. The subtraction is on 64-bit unsigned numbers. */
    method StatsPrint(record: seq<(u64, u64)>, prev: seq<(u64, u64)>,
                      ghost recs: seq<Reading>, ghost prevs: seq<Reading>)
      requires Valid() && |record| == |prev| == |recs| == |prevs|
      requires forall k :: 0 <= k < |record| ==>
                 Comparable(prevs[k], recs[k]) && Stores(prev[k], prevs[k]) && Stores(record[k], recs[k])
      modifies this`printed, this`sources
      ensures Valid() && old(printed) <= printed && |printed| == |old(printed)| + |record|
      ensures sources == old(sources) + Pairs(prevs, recs)
    {
      for i := 0 to |record|
        invariant Valid() && old(printed) <= printed && |printed| == |old(printed)| + i
        invariant sources == old(sources) + Pairs(prevs, recs)[..i]
      {
        U64Difference(prevs[i].exact.packets, recs[i].exact.packets);
        U64Difference(prevs[i].exact.bytes, recs[i].exact.bytes);
        printed := printed + [Line(U64((record[i].0 as int) - prev[i].0), U64((record[i].1 as int) - prev[i].1))];
        sources := sources + [Source(prevs[i], recs[i])];
      }
    }

    /** stats_poll for at most rounds intervals; it returns early when another map is pinned. Each
        of the done rounds prints a line for each action, of the map it was started on. */
    method StatsPoll(id: nat, rounds: nat) returns (ghost done: nat)
      requires Valid() && id in maps
      modifies this
      ensures Valid() && AllGrown(old(maps), maps) && Moved(old(maps), old(pinned), pinned)
      ensures old(printed) <= printed && old(sources) <= sources && Session(sources, |old(sources)|, id)
      ensures |sources| == |old(sources)| + XDP_ACTION_MAX * done && done <= rounds
      ensures done < rounds ==> pinned != id
      ensures old(pinned) != id ==> done == 0
    {
      var record; ghost var recs;
      record, recs := StatsCollect(id);
      for n := 0 to rounds
        invariant Valid() && AllGrown(old(maps), maps) && Moved(old(maps), old(pinned), pinned)
        invariant old(printed) <= printed && old(sources) <= sources
        invariant Session(sources, |old(sources)|, id) && |sources| == |old(sources)| + XDP_ACTION_MAX * n
        invariant old(pinned) != id ==> n == 0
        invariant |sources| == |old(sources)| || Latest(sources, |old(sources)|, recs)
        invariant |record| == |recs| == XDP_ACTION_MAX
        invariant forall k :: 0 <= k < XDP_ACTION_MAX ==> CollectedBy(id, k, record[k], recs[k], maps)
      {
        var same;
        ghost var past, prevs, before, p := sources, recs, maps, pinned;
        record, recs, same := PollRound(id, record, recs);
        MovedTransitive(old(maps), old(pinned), before, p, pinned);
        GrownTransitive(old(maps), before, maps);
        if !same {
          return n;
        }
        SessionNext(past, |old(sources)|, id, prevs, recs);
      }
      done := rounds;
    }

    /** One round of the polling loop; it prints exactly if the map is still pinned when it looks. */
    method PollRound(id: nat, record0: seq<(u64, u64)>, ghost recs0: seq<Reading>)
      returns (record: seq<(u64, u64)>, ghost recs: seq<Reading>, same: bool)
      requires Valid() && id in maps && |record0| == |recs0| == XDP_ACTION_MAX
      requires forall k :: 0 <= k < XDP_ACTION_MAX ==> CollectedBy(id, k, record0[k], recs0[k], maps)
      modifies this
      ensures Valid() && AllGrown(old(maps), maps) && Moved(old(maps), old(pinned), pinned)
      ensures old(printed) <= printed && |record| == |recs| == XDP_ACTION_MAX
      ensures sources == if same then old(sources) + Pairs(recs0, recs) else old(sources)
      ensures same ==> forall k :: 0 <= k < XDP_ACTION_MAX ==> CollectedBy(id, k, record[k], recs[k], maps)
      ensures (old(pinned) != id ==> !same) && (!same ==> pinned != id)
    {
      var prev := record0;
      ghost var past := maps;
      Interfere();
      if id != pinned {
        return prev, recs0, false;
      }
      ghost var now := maps;
      record, recs := StatsCollect(id);
      MovedTransitive(past, old(pinned), now, id, pinned);
      GrownTransitive(past, now, maps);
      forall k | 0 <= k < XDP_ACTION_MAX ensures Comparable(recs0[k], recs[k]) {
        RoundsComparable(id, k, prev[k], recs0[k], record[k], recs[k], past, now, maps);
      }
      StatsPrint(record, prev, recs, recs0);
      same := true;
    }

    /** One iteration of the loop of main. */
    method OneSession(rounds: nat) returns (ghost part: Part)
      requires Valid()
      modifies this
      ensures Valid() && AllGrown(old(maps), maps) && Moved(old(maps), old(pinned), pinned)
      ensures old(printed) <= printed && old(sources) <= sources
      ensures part == Part(|old(sources)|, |sources|, part.id) && Session(sources, |old(sources)|, part.id)
      ensures Polled(part, rounds, maps, pinned) && Moved(old(maps), old(pinned), part.id)
    {
      Interfere();
      ghost var m := maps;
      var id := pinned;
      ghost var done := StatsPoll(id, rounds);
      GrownTransitive(old(maps), m, maps);
      MovedTransitive(old(maps), old(pinned), m, id, pinned);
      part := Part(|old(sources)|, |sources|, id);
    }

    /** The loop of main: poll whatever map is pinned, and start over when it was replaced. Every
        line ever printed is explained by two readings of one map, and the lines are those of one
        session after the other, each on a map pinned during the run and none cut short while its
        map is pinned. */
    method Run(sessions: seq<nat>) returns (ghost parts: seq<Part>)
      requires Valid()
      modifies this
      ensures Valid() && AllGrown(old(maps), maps) && old(printed) <= printed
      ensures Sessions(sources, |old(sources)|, parts) && |parts| == |sessions|
      ensures AllPolled(parts, sessions, old(maps), old(pinned), maps, pinned)
    {
      GrownReflexive(maps);
      parts := [];
      for i := 0 to |sessions|
        invariant Valid() && AllGrown(old(maps), maps) && old(printed) <= printed
        invariant Moved(old(maps), old(pinned), pinned)
        invariant Sessions(sources, |old(sources)|, parts) && |parts| == i
        invariant AllPolled(parts, sessions, old(maps), old(pinned), maps, pinned)
      {
        ghost var before, m, p := sources, maps, pinned;
        ghost var part := OneSession(sessions[i]);
        AllPolledStay(parts, sessions, old(maps), old(pinned), m, p, maps, pinned);
        GrownTransitive(old(maps), m, maps);
        MovedTransitive(old(maps), old(pinned), m, p, pinned);
        MovedTransitive(old(maps), old(pinned), m, p, part.id);
        SessionsNext(before, sources, |old(sources)|, parts, part.id);
        parts := parts + [part];
      }
    }
  }
}
