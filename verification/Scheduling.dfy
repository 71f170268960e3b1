/** The scheduling loop of the generator: entries are appended to the log, their
    certificates wait for the next checkpoint of the sequence they name, and each
    checkpoint gives the waiting ones the subtree that covers them.
 */
module Scheduling {
  import opened Bits
  import opened Hashing
  import opened Subtrees

  type Name = string

  const LANDMARK: Name := "landmark"

  datatype CertConfig = CertConfig(subtreeStart: uint64, subtreeEnd: uint64, checkpoint: Name, cosigners: seq<Bytes>)

  /** `entry` is the marshalled log entry, or None when marshalling fails. */
  datatype EntryConfig = EntryConfig(entry: Option<Bytes>, repeat: int, checkpoints: seq<Name>, certificates: seq<CertConfig>)

  datatype CertInfo = CertInfo(config: CertConfig, index: uint64, num: nat, start: uint64, end: uint64, landmarkNum: nat)

  datatype Wait = Wait(idx: nat, prev: uint64)

  datatype Schedule = Schedule(entries: seq<Bytes>, infos: seq<CertInfo>, landmarks: seq<uint64>)

  // ----- What a schedule should be, from the log of entries alone -----

  /** The size at the last checkpoint of the sequence within the first i entries;
      every sequence starts at zero. */
  function LastMark(log: seq<EntryConfig>, c: Name, i: nat): (m: nat)
    requires i <= |log|
    ensures m <= i
  {
    if i == 0 then 0 else if c in log[i - 1].checkpoints then i else LastMark(log, c, i - 1)
  }

  /** The size at the first checkpoint of the sequence after entry i, or zero. */
  function NextMark(log: seq<EntryConfig>, c: Name, i: nat): (m: nat)
    requires i <= |log|
    ensures m == 0 || (i < m <= |log| && c in log[m - 1].checkpoints)
    decreases |log| - i
  {
    if i == |log| then 0 else if c in log[i].checkpoints then i + 1 else NextMark(log, c, i + 1)
  }

  function Repeated(v: uint64, names: seq<Name>): seq<uint64> {
    if |names| == 0 then []
    else Repeated(v, names[..|names| - 1]) + (if names[|names| - 1] == LANDMARK then [v] else [])
  }

  /** The sizes at the landmarks, starting with zero. */
  function Landmarks(log: seq<EntryConfig>): (l: seq<uint64>)
    requires |log| < 0x8000_0000_0000_0000
    ensures 0 < |l|
  {
    if |log| == 0 then [0]
    else Landmarks(log[..|log| - 1]) + Repeated(|log|, log[|log| - 1].checkpoints)
  }

  /** The half of the cover of [prev, next) that holds index. */
  predicate IsCovering(prev: uint64, next: uint64, info: CertInfo) {
    var r := SubtreesForInterval(prev, next);
    && r.Ok?
    && (if info.index < r.value.end1 then info.start == r.value.start1 && info.end == r.value.end1
        else info.start == r.value.start2 && info.end == r.value.end2)
  }

  predicate IsWaitingKind(config: CertConfig) { config.subtreeEnd == 0 && |config.checkpoint| != 0 }

  /** What is fixed when a certificate is scheduled. */
  predicate IsScheduled(log: seq<EntryConfig>, info: CertInfo)
    requires |log| < 0x8000_0000_0000_0000
  {
    && info.index < |log|
    && info.num < |log[info.index].certificates|
    && info.config == log[info.index].certificates[info.num]
    && (info.config.subtreeEnd != 0 ==>
         |info.config.checkpoint| == 0 && info.start == info.config.subtreeStart && info.end == info.config.subtreeEnd)
    && (info.config.subtreeEnd == 0 ==> |info.config.checkpoint| != 0)
    && info.landmarkNum == (if info.config.subtreeEnd == 0 && info.config.checkpoint == LANDMARK
         then |Landmarks(log[..info.index])| else 0)
  }

  /** A waiting certificate that got its checkpoint: the interval from the last
      checkpoint before its entry to the first one after it, covered. */
  predicate IsResolved(log: seq<EntryConfig>, info: CertInfo)
    requires |log| < 0x8000_0000_0000_0000
    requires info.index < |log|
  {
    var c := info.config.checkpoint;
    && NextMark(log, c, info.index) != 0
    && IsCovering(LastMark(log, c, info.index), NextMark(log, c, info.index), info)
  }

  /** The entry configurations in the order their entries enter the log. */
  function Times(e: EntryConfig, n: int): seq<EntryConfig> {
    if n <= 0 then [] else Times(e, n - 1) + [e]
  }

  function Expanded(configs: seq<EntryConfig>): seq<EntryConfig> {
    if |configs| == 0 then []
    else
      var e := configs[|configs| - 1];
      Expanded(configs[..|configs| - 1]) + Times(e, if e.repeat != 0 then e.repeat else 1)
  }

  /** The certificates of the log, entry by entry. */
  function CertificateCount(log: seq<EntryConfig>): nat {
    if |log| == 0 then 0 else CertificateCount(log[..|log| - 1]) + |log[|log| - 1].certificates|
  }

  /** Position k of the certificates belongs to this entry and number. */
  predicate InOrder(log: seq<EntryConfig>, k: nat, info: CertInfo) {
    info.index < |log| && k == CertificateCount(log[..info.index]) + info.num
  }

  predicate EntriesOf(log: seq<EntryConfig>, entries: seq<Bytes>) {
    && |entries| == |log|
    && forall i :: 0 <= i < |log| ==> log[i].entry == Some(entries[i])
  }

  ghost predicate IsScheduleOf(log: seq<EntryConfig>, s: Schedule) {
    && |log| < 0x8000_0000_0000_0000
    && EntriesOf(log, s.entries)
    && s.landmarks == Landmarks(log)
    && |s.infos| == CertificateCount(log)
    && forall k :: 0 <= k < |s.infos| ==>
         && IsScheduled(log, s.infos[k]) && InOrder(log, k, s.infos[k])
         && (IsWaitingKind(s.infos[k].config) ==> IsResolved(log, s.infos[k]))
  }

  // ----- What every step keeps -----

  function Latest(seqs: map<Name, uint64>, c: Name): uint64 { if c in seqs then seqs[c] else 0 }

  function WaitsOf(awaiting: map<Name, seq<Wait>>, c: Name): seq<Wait> { if c in awaiting then awaiting[c] else [] }

  predicate HasWait(waits: seq<Wait>, k: nat) {
    exists i :: 0 <= i < |waits| && waits[i].idx == k
  }

  /** A certificate that waits for the next checkpoint of c, which has not come yet. */
  predicate IsOpenWait(log: seq<EntryConfig>, infos: seq<CertInfo>, c: Name, w: Wait)
    requires |log| < 0x8000_0000_0000_0000
  {
    && w.idx < |infos|
    && infos[w.idx].index < |log|
    && IsWaitingKind(infos[w.idx].config) && infos[w.idx].config.checkpoint == c
    && w.prev == LastMark(log, c, infos[w.idx].index)
    && NextMark(log, c, infos[w.idx].index) == 0
  }

  predicate OpenWaits(log: seq<EntryConfig>, infos: seq<CertInfo>, c: Name, waits: seq<Wait>)
    requires |log| < 0x8000_0000_0000_0000
  {
    forall i :: 0 <= i < |waits| ==> IsOpenWait(log, infos, c, waits[i])
  }

  predicate InfoOk(log: seq<EntryConfig>, awaiting: map<Name, seq<Wait>>, infos: seq<CertInfo>, k: nat)
    requires |log| < 0x8000_0000_0000_0000 && k < |infos|
  {
    && IsScheduled(log, infos[k]) && InOrder(log, k, infos[k])
    && (IsWaitingKind(infos[k].config) ==>
         IsResolved(log, infos[k]) || HasWait(WaitsOf(awaiting, infos[k].config.checkpoint), k))
  }

  ghost predicate Sizes(log: seq<EntryConfig>, seqs: map<Name, uint64>, landmarks: seq<uint64>)
    requires |log| < 0x8000_0000_0000_0000
  {
    && (forall c :: Latest(seqs, c) == LastMark(log, c, |log|))
    && landmarks == Landmarks(log)
  }

  ghost predicate Waiting(log: seq<EntryConfig>, awaiting: map<Name, seq<Wait>>, infos: seq<CertInfo>)
    requires |log| < 0x8000_0000_0000_0000
  {
    && (forall c :: c in awaiting ==> 0 < |awaiting[c]| && OpenWaits(log, infos, c, awaiting[c]))
    && (forall k :: 0 <= k < |infos| ==> InfoOk(log, awaiting, infos, k))
  }

  // ----- Logs that grow -----

  lemma {:induction false} LastMarkPrefix(a: seq<EntryConfig>, b: seq<EntryConfig>, c: Name, i: nat)
    requires i <= |a| && i <= |b| && a[..i] == b[..i]
    ensures LastMark(a, c, i) == LastMark(b, c, i)
  {
    if i != 0 {
      assert a[i - 1] == a[..i][i - 1] == b[..i][i - 1] == b[i - 1];
      assert a[..i - 1] == a[..i][..i - 1] && b[..i - 1] == b[..i][..i - 1];
      LastMarkPrefix(a, b, c, i - 1);
    }
  }

  /** One more checkpoint name on the last entry. */
  ghost predicate ExtendsLast(a: seq<EntryConfig>, b: seq<EntryConfig>, s: Name) {
    && 0 < |a| == |b| && a[..|a| - 1] == b[..|a| - 1]
    && b[|a| - 1] == a[|a| - 1].(checkpoints := a[|a| - 1].checkpoints + [s])
  }

  lemma {:induction false} NextMarkExtended(a: seq<EntryConfig>, b: seq<EntryConfig>, s: Name, c: Name, i: nat)
    requires ExtendsLast(a, b, s) && i < |a|
    ensures NextMark(b, c, i) ==
      if NextMark(a, c, i) == 0 && c == s then |b| else NextMark(a, c, i)
    decreases |a| - i
  {
    var n := |a| - 1;
    if i < n {
      assert a[i] == a[..n][i] == b[..n][i] == b[i];
      NextMarkExtended(a, b, s, c, i + 1);
    } else {
      assert NextMark(a, c, |a|) == 0 && NextMark(b, c, |b|) == 0;
    }
  }

  /** A new entry without checkpoints yet. */
  lemma {:induction false} NextMarkAppended(a: seq<EntryConfig>, e: EntryConfig, c: Name, i: nat)
    requires |e.checkpoints| == 0 && i <= |a|
    ensures NextMark(a + [e], c, i) == NextMark(a, c, i)
    decreases |a| - i
  {
    var b := a + [e];
    if i < |a| {
      assert b[i] == a[i];
      NextMarkAppended(a, e, c, i + 1);
    } else {
      assert b[i] == e;
      assert NextMark(b, c, |b|) == 0;
    }
  }

  // ----- Which configurations can be scheduled -----

  predicate GoodCertificate(config: CertConfig, known: seq<Bytes>) {
    && (if config.subtreeEnd != 0 then |config.checkpoint| == 0 else |config.checkpoint| != 0)
    && forall i :: 0 <= i < |config.cosigners| ==> config.cosigners[i] in known
  }

  predicate GoodEntry(e: EntryConfig, known: seq<Bytes>) {
    && e.entry.Some?
    && forall n :: 0 <= n < |e.certificates| ==> GoodCertificate(e.certificates[n], known)
  }

  /** Entry i is good, and each of its certificates that waits gets a checkpoint. */
  predicate GoodAt(log: seq<EntryConfig>, known: seq<Bytes>, i: nat)
    requires i < |log|
  {
    && GoodEntry(log[i], known)
    && forall n :: 0 <= n < |log[i].certificates| && IsWaitingKind(log[i].certificates[n]) ==>
         NextMark(log, log[i].certificates[n].checkpoint, i) != 0
  }

  ghost predicate Schedulable(log: seq<EntryConfig>, known: seq<Bytes>) {
    && |log| < 0x8000_0000_0000_0000
    && forall i :: 0 <= i < |log| ==> GoodAt(log, known, i)
  }

  // ----- The steps -----

  lemma {:induction false} NewEntrySizes(log: seq<EntryConfig>, e: EntryConfig, seqs: map<Name, uint64>, landmarks: seq<uint64>)
    requires |log| + 1 < 0x8000_0000_0000_0000 && |e.checkpoints| == 0
    requires Sizes(log, seqs, landmarks)
    ensures Sizes(log + [e], seqs, landmarks)
  {
    hide Repeated;
    var b := log + [e];
    forall c ensures Latest(seqs, c) == LastMark(b, c, |b|) {
      LastMarkPrefix(log, b, c, |log|);
    }
    assert b[..|b| - 1] == log;
    RepeatedNone(|b|);
    assert landmarks + [] == landmarks;
  }

  lemma {:induction false} RepeatedNone(v: uint64)
    ensures Repeated(v, []) == []
  {
  }

  lemma {:induction false} NewEntryInfo(log: seq<EntryConfig>, e: EntryConfig, awaiting: map<Name, seq<Wait>>, infos: seq<CertInfo>, k: nat)
    requires |log| + 1 < 0x8000_0000_0000_0000 && |e.checkpoints| == 0 && k < |infos|
    requires InfoOk(log, awaiting, infos, k)
    ensures InfoOk(log + [e], awaiting, infos, k)
  {
    hide Landmarks, NextMark, LastMark, CertificateCount, IsCovering, HasWait;
    var b, info := log + [e], infos[k];
    var c := info.config.checkpoint;
    assert b[info.index] == log[info.index];
    assert b[..info.index] == log[..info.index];
    NextMarkAppended(log, e, c, info.index);
    LastMarkPrefix(log, b, c, info.index);
  }

  lemma {:induction false} NewEntryWaits(log: seq<EntryConfig>, e: EntryConfig, infos: seq<CertInfo>, c: Name, w: Wait)
    requires |log| + 1 < 0x8000_0000_0000_0000 && |e.checkpoints| == 0
    requires IsOpenWait(log, infos, c, w)
    ensures IsOpenWait(log + [e], infos, c, w)
  {
    hide NextMark, LastMark;
    var b, i := log + [e], infos[w.idx].index;
    NextMarkAppended(log, e, c, i);
    assert b[..i] == log[..i];
    LastMarkPrefix(log, b, c, i);
  }

  /** An entry enters the log, its checkpoints not yet reached. */
  lemma {:induction false} NewEntry(log: seq<EntryConfig>, e: EntryConfig, awaiting: map<Name, seq<Wait>>, infos: seq<CertInfo>)
    requires |log| + 1 < 0x8000_0000_0000_0000 && |e.checkpoints| == 0
    requires Waiting(log, awaiting, infos)
    ensures Waiting(log + [e], awaiting, infos)
  {
    hide InfoOk, IsOpenWait;
    forall k | 0 <= k < |infos| ensures InfoOk(log + [e], awaiting, infos, k) {
      NewEntryInfo(log, e, awaiting, infos, k);
    }
    forall c | c in awaiting ensures OpenWaits(log + [e], infos, c, awaiting[c]) {
      forall i | 0 <= i < |awaiting[c]| ensures IsOpenWait(log + [e], infos, c, awaiting[c][i]) {
        NewEntryWaits(log, e, infos, c, awaiting[c][i]);
      }
    }
  }

  lemma {:induction false} WaitsKept(log: seq<EntryConfig>, infos: seq<CertInfo>, more: seq<CertInfo>, c: Name, waits: seq<Wait>)
    requires |log| < 0x8000_0000_0000_0000
    requires OpenWaits(log, infos, c, waits)
    requires |infos| <= |more| && more[..|infos|] == infos
    ensures OpenWaits(log, more, c, waits)
  {
    hide LastMark, NextMark;
    forall i | 0 <= i < |waits| ensures IsOpenWait(log, more, c, waits[i]) {
      assert more[waits[i].idx] == more[..|infos|][waits[i].idx];
    }
  }

  lemma {:induction false} HasWaitMore(waits: seq<Wait>, w: Wait, k: nat)
    ensures HasWait(waits + [w], k) <==> HasWait(waits, k) || w.idx == k
  {
    if HasWait(waits, k) {
      var i :| 0 <= i < |waits| && waits[i].idx == k;
      assert (waits + [w])[i] == waits[i];
    }
    assert (waits + [w])[|waits|] == w;
  }

  /** A certificate with coordinates of its own. */
  lemma {:induction false} AddFixed(log: seq<EntryConfig>, awaiting: map<Name, seq<Wait>>, infos: seq<CertInfo>, info: CertInfo)
    requires |log| < 0x8000_0000_0000_0000
    requires Waiting(log, awaiting, infos)
    requires IsScheduled(log, info) && InOrder(log, |infos|, info) && !IsWaitingKind(info.config)
    ensures Waiting(log, awaiting, infos + [info])
  {
    hide OpenWaits, IsScheduled, InOrder, IsResolved, HasWait;
    var more := infos + [info];
    assert more[..|infos|] == infos;
    forall c | c in awaiting ensures OpenWaits(log, more, c, awaiting[c]) {
      WaitsKept(log, infos, more, c, awaiting[c]);
    }
    forall k | 0 <= k < |more| ensures InfoOk(log, awaiting, more, k) {
      if k < |infos| { assert InfoOk(log, awaiting, infos, k); }
    }
  }

  /** A certificate that waits for the next checkpoint of its sequence. */
  lemma {:induction false} AddWaiting(log: seq<EntryConfig>, awaiting: map<Name, seq<Wait>>, infos: seq<CertInfo>, info: CertInfo, prev: uint64)
    requires |log| < 0x8000_0000_0000_0000
    requires Waiting(log, awaiting, infos)
    requires IsScheduled(log, info) && InOrder(log, |infos|, info) && IsWaitingKind(info.config)
    requires prev == LastMark(log, info.config.checkpoint, info.index)
    requires NextMark(log, info.config.checkpoint, info.index) == 0
    ensures var c := info.config.checkpoint;
      Waiting(log, awaiting[c := WaitsOf(awaiting, c) + [Wait(|infos|, prev)]], infos + [info])
  {
    hide InfoOk, OpenWaits, IsOpenWait, IsScheduled, CertificateCount, LastMark, NextMark;
    var more, c := infos + [info], info.config.checkpoint;
    var w := Wait(|infos|, prev);
    var now := awaiting[c := WaitsOf(awaiting, c) + [w]];
    forall d | d in now ensures 0 < |now[d]| && OpenWaits(log, more, d, now[d]) {
      if d == c {
        OpenWaitAdded(log, infos, info, c, WaitsOf(awaiting, c), w);
      } else {
        WaitsKept(log, infos, more, d, awaiting[d]);
      }
    }
    forall k | 0 <= k < |more| ensures InfoOk(log, now, more, k) {
      InfoAdded(log, awaiting, infos, info, w, k);
    }
  }

  lemma {:induction false} OpenWaitAdded(log: seq<EntryConfig>, infos: seq<CertInfo>, info: CertInfo, c: Name, waits: seq<Wait>, w: Wait)
    requires |log| < 0x8000_0000_0000_0000
    requires |waits| == 0 || OpenWaits(log, infos, c, waits)
    requires w.idx == |infos| && info.index < |log| && IsWaitingKind(info.config) && info.config.checkpoint == c
    requires w.prev == LastMark(log, c, info.index) && NextMark(log, c, info.index) == 0
    ensures OpenWaits(log, infos + [info], c, waits + [w])
  {
    hide LastMark, NextMark;
    var more := infos + [info];
    assert more[..|infos|] == infos;
    if |waits| != 0 { WaitsKept(log, infos, more, c, waits); }
    assert IsOpenWait(log, more, c, w);
  }

  lemma {:induction false} InfoAdded(log: seq<EntryConfig>, awaiting: map<Name, seq<Wait>>, infos: seq<CertInfo>, info: CertInfo, w: Wait, k: nat)
    requires |log| < 0x8000_0000_0000_0000 && k <= |infos|
    requires k < |infos| ==> InfoOk(log, awaiting, infos, k)
    requires IsScheduled(log, info) && InOrder(log, |infos|, info) && w.idx == |infos|
    ensures var c := info.config.checkpoint;
      InfoOk(log, awaiting[c := WaitsOf(awaiting, c) + [w]], infos + [info], k)
  {
    hide IsScheduled, InOrder, IsResolved, HasWait;
    HasWaitMore(WaitsOf(awaiting, info.config.checkpoint), w, k);
  }

  /** A checkpoint of s is reached: the sizes. */
  lemma {:induction false} MarkSizes(log: seq<EntryConfig>, b: seq<EntryConfig>, s: Name, seqs: map<Name, uint64>, landmarks: seq<uint64>)
    requires 0 < |log| < 0x8000_0000_0000_0000 && ExtendsLast(log, b, s)
    requires Sizes(log, seqs, landmarks)
    ensures Sizes(b, seqs[s := |b|], if s == LANDMARK then landmarks + [|b|] else landmarks)
  {
    hide Repeated, LastMark;
    var n := |log| - 1;
    forall c ensures Latest(seqs[s := |b|], c) == LastMark(b, c, |b|) {
      assert Latest(seqs, c) == LastMark(log, c, |log|);
      LastMarkExtended(log, b, s, c);
    }
    RepeatedMore(|b|, log[n].checkpoints, s);
    var first := Landmarks(log[..n]);
    assert first + (Repeated(|b|, log[n].checkpoints) + [|b|]) == (first + Repeated(|b|, log[n].checkpoints)) + [|b|];
    assert Repeated(|b|, log[n].checkpoints) + [] == Repeated(|b|, log[n].checkpoints);
  }

  lemma {:induction false} LastMarkExtended(log: seq<EntryConfig>, b: seq<EntryConfig>, s: Name, c: Name)
    requires ExtendsLast(log, b, s)
    ensures LastMark(b, c, |b|) == if c == s then |b| else LastMark(log, c, |log|)
  {
    var n := |log| - 1;
    var names := log[n].checkpoints;
    LastMarkPrefix(log, b, c, n);
    assert (names + [s])[|names|] == s;
  }

  lemma {:induction false} RepeatedMore(v: uint64, names: seq<Name>, s: Name)
    ensures Repeated(v, names + [s]) == Repeated(v, names) + (if s == LANDMARK then [v] else [])
  {
    assert (names + [s])[..|names|] == names;
  }

  /** A waiting certificate whose checkpoint is the size of the log. */
  predicate IsReady(log: seq<EntryConfig>, infos: seq<CertInfo>, s: Name, w: Wait)
    requires |log| < 0x8000_0000_0000_0000
  {
    && w.idx < |infos|
    && infos[w.idx].index < |log|
    && IsWaitingKind(infos[w.idx].config) && infos[w.idx].config.checkpoint == s
    && w.prev == LastMark(log, s, infos[w.idx].index)
    && NextMark(log, s, infos[w.idx].index) == |log|
  }

  /** While the certificates waiting for s are filled in: the first i are done. */
  ghost predicate Filling(log: seq<EntryConfig>, awaiting: map<Name, seq<Wait>>, infos: seq<CertInfo>, s: Name, i: nat)
    requires |log| < 0x8000_0000_0000_0000
  {
    && (forall c :: c in awaiting && c != s ==> 0 < |awaiting[c]| && OpenWaits(log, infos, c, awaiting[c]))
    && (forall j :: 0 <= j < |WaitsOf(awaiting, s)| ==> IsReady(log, infos, s, WaitsOf(awaiting, s)[j]))
    && i <= |WaitsOf(awaiting, s)|
    && (forall j :: 0 <= j < i ==> IsResolved(log, infos[WaitsOf(awaiting, s)[j].idx]))
    && (forall k :: 0 <= k < |infos| ==> InfoOk(log, awaiting, infos, k))
  }

  lemma {:induction false} MarkInfo(log: seq<EntryConfig>, b: seq<EntryConfig>, s: Name, awaiting: map<Name, seq<Wait>>, infos: seq<CertInfo>, k: nat)
    requires 0 < |log| < 0x8000_0000_0000_0000 && ExtendsLast(log, b, s) && k < |infos|
    requires InfoOk(log, awaiting, infos, k)
    ensures InfoOk(b, awaiting, infos, k)
  {
    hide Landmarks, NextMark, LastMark, CertificateCount, IsCovering, HasWait;
    var info, n := infos[k], |log| - 1;
    var i := info.index;
    assert log[..i] == log[..n][..i] == b[..n][..i] == b[..i];
    if i < n { assert log[i] == log[..n][i] == b[..n][i] == b[i]; }
    NextMarkExtended(log, b, s, info.config.checkpoint, i);
    LastMarkPrefix(log, b, info.config.checkpoint, i);
  }

  lemma {:induction false} MarkWait(log: seq<EntryConfig>, b: seq<EntryConfig>, s: Name, infos: seq<CertInfo>, c: Name, w: Wait)
    requires 0 < |log| < 0x8000_0000_0000_0000 && ExtendsLast(log, b, s)
    requires IsOpenWait(log, infos, c, w)
    ensures if c == s then IsReady(b, infos, s, w) else IsOpenWait(b, infos, c, w)
  {
    hide NextMark, LastMark;
    var i, n := infos[w.idx].index, |log| - 1;
    assert log[..i] == log[..n][..i] == b[..n][..i] == b[..i];
    NextMarkExtended(log, b, s, c, i);
    LastMarkPrefix(log, b, c, i);
  }

  /** A checkpoint of s is reached: the certificates. */
  lemma {:induction false} MarkStarts(log: seq<EntryConfig>, b: seq<EntryConfig>, s: Name, awaiting: map<Name, seq<Wait>>, infos: seq<CertInfo>)
    requires 0 < |log| < 0x8000_0000_0000_0000 && ExtendsLast(log, b, s)
    requires Waiting(log, awaiting, infos)
    ensures Filling(b, awaiting, infos, s, 0)
  {
    hide InfoOk, IsOpenWait, IsReady, ExtendsLast;
    ExtendsLength(log, b, s);
    forall k | 0 <= k < |infos| ensures InfoOk(b, awaiting, infos, k) {
      MarkInfo(log, b, s, awaiting, infos, k);
    }
    forall c | c in awaiting && c != s ensures OpenWaits(b, infos, c, awaiting[c]) {
      forall i | 0 <= i < |awaiting[c]| ensures IsOpenWait(b, infos, c, awaiting[c][i]) {
        MarkWait(log, b, s, infos, c, awaiting[c][i]);
      }
    }
    forall j | 0 <= j < |WaitsOf(awaiting, s)| ensures IsReady(b, infos, s, WaitsOf(awaiting, s)[j]) {
      MarkWait(log, b, s, infos, s, WaitsOf(awaiting, s)[j]);
    }
  }

  /** Filling in one certificate touches no other. */
  lemma {:induction false} FillStep(log: seq<EntryConfig>, awaiting: map<Name, seq<Wait>>, infos: seq<CertInfo>, s: Name, i: nat, start: uint64, end: uint64)
    requires |log| < 0x8000_0000_0000_0000
    requires Filling(log, awaiting, infos, s, i) && i < |WaitsOf(awaiting, s)|
    requires WaitsOf(awaiting, s)[i].idx < |infos|
    requires var w := WaitsOf(awaiting, s)[i];
      IsCovering(w.prev, |log|, infos[w.idx].(start := start, end := end))
    ensures var k := WaitsOf(awaiting, s)[i].idx;
      Filling(log, awaiting, infos[k := infos[k].(start := start, end := end)], s, i + 1)
  {
    hide LastMark, NextMark, Landmarks, CertificateCount, IsCovering, HasWait;
    var waits := WaitsOf(awaiting, s);
    var w := waits[i];
    var k := w.idx;
    var filled := infos[k].(start := start, end := end);
    var more := infos[k := filled];
    assert IsReady(log, infos, s, w);
    assert InfoOk(log, awaiting, infos, k);
    assert IsResolved(log, filled);
    forall c | c in awaiting && c != s ensures OpenWaits(log, more, c, awaiting[c]) {
      forall j | 0 <= j < |awaiting[c]| ensures IsOpenWait(log, more, c, awaiting[c][j]) {
        assert IsOpenWait(log, infos, c, awaiting[c][j]);
      }
    }
    forall j | 0 <= j < |waits| ensures IsReady(log, more, s, waits[j]) {
      assert IsReady(log, infos, s, waits[j]);
    }
    forall j | 0 <= j < i + 1 ensures IsResolved(log, more[waits[j].idx]) {
      assert IsReady(log, infos, s, waits[j]);
    }
    forall m | 0 <= m < |more| ensures InfoOk(log, awaiting, more, m) {
      assert InfoOk(log, awaiting, infos, m);
    }
  }

  lemma {:induction false} FillEnd(log: seq<EntryConfig>, awaiting: map<Name, seq<Wait>>, infos: seq<CertInfo>, s: Name)
    requires |log| < 0x8000_0000_0000_0000
    requires Filling(log, awaiting, infos, s, |WaitsOf(awaiting, s)|)
    ensures Waiting(log, awaiting - {s}, infos)
  {
    hide LastMark, NextMark, Landmarks, CertificateCount, IsCovering, OpenWaits, IsScheduled, InOrder;
    var waits := WaitsOf(awaiting, s);
    forall k | 0 <= k < |infos| ensures InfoOk(log, awaiting - {s}, infos, k) {
      assert InfoOk(log, awaiting, infos, k);
      if HasWait(waits, k) {
        var j :| 0 <= j < |waits| && waits[j].idx == k;
        assert IsResolved(log, infos[waits[j].idx]);
      }
    }
  }

  /** One checkpoint of one entry. */
  method ReachCheckpoint(ghost log: seq<EntryConfig>, ghost b: seq<EntryConfig>, s: Name, size: uint64,
      awaiting: map<Name, seq<Wait>>, infos: seq<CertInfo>)
    returns (ok: bool, awaiting': map<Name, seq<Wait>>, infos': seq<CertInfo>)
    requires 0 < |log| < 0x8000_0000_0000_0000 && ExtendsLast(log, b, s) && size == |b|
    requires Waiting(log, awaiting, infos)
    ensures ok && Waiting(b, awaiting', infos') && |infos'| == |infos|
  {
    hide Waiting, ExtendsLast, SubtreesForInterval, LastMark, NextMark, IsResolved, OpenWaits, InfoOk, WaitsOf;
    MarkStarts(log, b, s, awaiting, infos);
    infos' := infos;
    var waits := WaitsOf(awaiting, s);
    assert |b| == |log| by { ExtendsLength(log, b, s); }
    var i := 0;
    while i < |waits|
      invariant i <= |waits| && |infos'| == |infos|
      invariant Filling(b, awaiting, infos', s, i)
    {
      var w := waits[i];
      assert IsReady(b, infos', s, w);
      CoverOfInterval(w.prev, size);
      var r := SubtreesForInterval(w.prev, size);
      if r.Err? { return false, awaiting, infos; }
      var info := infos'[w.idx];
      var start, end;
      if info.index < r.value.end1 {
        start, end := r.value.start1, r.value.end1;
      } else {
        start, end := r.value.start2, r.value.end2;
      }
      FillStep(b, awaiting, infos', s, i, start, end);
      infos' := infos'[w.idx := info.(start := start, end := end)];
      i := i + 1;
    }
    FillEnd(b, awaiting, infos', s);
    awaiting' := awaiting - {s};
    ok := true;
  }

  lemma {:induction false} ExtendsLength(a: seq<EntryConfig>, b: seq<EntryConfig>, s: Name)
    requires ExtendsLast(a, b, s)
    ensures |a| == |b|
  {
  }

  // ----- The loop -----

  /** The variables of the loop. */
  datatype Loop = Loop(
    entries: seq<Bytes>,
    infos: seq<CertInfo>,
    awaiting: map<Name, seq<Wait>>,
    checkpointSeqs: map<Name, uint64>,
    landmarks: seq<uint64>)

  ghost predicate Keeps(log: seq<EntryConfig>, known: seq<Bytes>, v: Loop) {
    && |log| < 0x8000_0000_0000_0000
    && EntriesOf(log, v.entries)
    && (forall i :: 0 <= i < |log| ==> GoodEntry(log[i], known))
    && |v.infos| == CertificateCount(log)
    && Sizes(log, v.checkpointSeqs, v.landmarks)
    && Waiting(log, v.awaiting, v.infos)
  }

  /** A certificate of the entry being scheduled, whose checkpoints are still to come. */
  lemma {:induction false} NewInfo(log: seq<EntryConfig>, e: EntryConfig, n: nat, seqs: map<Name, uint64>, landmarks: seq<uint64>)
    requires |log| + 1 < 0x8000_0000_0000_0000 && |e.checkpoints| == 0 && n < |e.certificates|
    requires Sizes(log, seqs, landmarks)
    ensures (log + [e])[..|log|] == log
    ensures |landmarks| == |Landmarks(log)|
    ensures forall c :: Latest(seqs, c) == LastMark(log + [e], c, |log|)
    ensures forall c :: NextMark(log + [e], c, |log|) == 0
  {
    hide Landmarks;
    var b := log + [e];
    assert b[..|log|] == log;
    forall c ensures Latest(seqs, c) == LastMark(b, c, |log|) && NextMark(b, c, |log|) == 0 {
      LastMarkPrefix(log, b, c, |log|);
      NextMarkAppended(log, e, c, |log|);
    }
  }

  /** Every cosigner that a certificate names is looked up in the CA's list. */
  method FindCosigners(ids: seq<Bytes>, known: seq<Bytes>) returns (all: bool)
    ensures all <==> forall i :: 0 <= i < |ids| ==> ids[i] in known
  {
    for i := 0 to |ids|
      invariant forall k :: 0 <= k < i ==> ids[k] in known
    {
      var found := false;
      for j := 0 to |known|
        invariant !found && ids[i] !in known[..j]
      {
        if known[j] == ids[i] { found := true; break; }
      }
      if !found {
        assert known[..|known|] == known;
        return false;
      }
    }
    return true;
  }

  method ScheduleCertificates(ghost log: seq<EntryConfig>, e: EntryConfig, index: uint64, known: seq<Bytes>, v: Loop)
    returns (ok: bool, awaiting: map<Name, seq<Wait>>, infos: seq<CertInfo>)
    requires |log| + 1 < 0x8000_0000_0000_0000 && index == |log|
    requires Sizes(log, v.checkpointSeqs, v.landmarks)
    requires Waiting(log + [e.(checkpoints := [])], v.awaiting, v.infos)
    requires |v.infos| == CertificateCount(log)
    ensures ok <==> forall n :: 0 <= n < |e.certificates| ==> GoodCertificate(e.certificates[n], known)
    ensures ok ==> Waiting(log + [e.(checkpoints := [])], awaiting, infos)
    ensures ok ==> |infos| == CertificateCount(log) + |e.certificates|
  {
    hide Sizes, Waiting, Landmarks, LastMark, NextMark, CertificateCount, WaitsOf, IsResolved, Latest;
    ghost var b := log + [e.(checkpoints := [])];
    awaiting, infos := v.awaiting, v.infos;
    for n := 0 to |e.certificates|
      invariant Waiting(b, awaiting, infos)
      invariant |infos| == CertificateCount(log) + n
      invariant forall m :: 0 <= m < n ==> GoodCertificate(e.certificates[m], known)
    {
      NewInfo(log, e.(checkpoints := []), n, v.checkpointSeqs, v.landmarks);
      var config := e.certificates[n];
      var info := CertInfo(config, index, n, 0, 0, 0);
      var now := awaiting;
      if config.subtreeEnd != 0 {
        if |config.checkpoint| != 0 { return false, awaiting, infos; }
        info := info.(start := config.subtreeStart, end := config.subtreeEnd);
      } else if |config.checkpoint| != 0 {
        var c := config.checkpoint;
        now := awaiting[c := WaitsOf(awaiting, c) + [Wait(|infos|, Latest(v.checkpointSeqs, c))]];
        if c == LANDMARK { info := info.(landmarkNum := |v.landmarks|); }
      } else {
        return false, awaiting, infos;
      }
      var found := FindCosigners(config.cosigners, known);
      if !found { return false, awaiting, infos; }
      assert b[index] == e.(checkpoints := []);
      if config.subtreeEnd != 0 {
        AddFixed(b, awaiting, infos, info);
      } else {
        AddWaiting(b, awaiting, infos, info, Latest(v.checkpointSeqs, config.checkpoint));
      }
      awaiting, infos := now, infos + [info];
    }
    ok := true;
  }

  lemma {:induction false} PartialEntry(log: seq<EntryConfig>, e: EntryConfig, k: nat)
    requires k <= |e.checkpoints|
    ensures k < |e.checkpoints| ==>
      ExtendsLast(log + [e.(checkpoints := e.checkpoints[..k])], log + [e.(checkpoints := e.checkpoints[..k + 1])], e.checkpoints[k])
    ensures e.(checkpoints := e.checkpoints[..|e.checkpoints|]) == e
    ensures e.checkpoints[..0] == []
  {
    if k < |e.checkpoints| {
      var a, b := log + [e.(checkpoints := e.checkpoints[..k])], log + [e.(checkpoints := e.checkpoints[..k + 1])];
      assert a[..|log|] == log && b[..|log|] == log;
      assert e.checkpoints[..k + 1] == e.checkpoints[..k] + [e.checkpoints[k]];
    }
  }

  method ReachCheckpoints(ghost log: seq<EntryConfig>, e: EntryConfig, size: uint64, v: Loop) returns (ok: bool, w: Loop)
    requires |log| + 1 < 0x8000_0000_0000_0000 && size == |log| + 1
    requires Sizes(log + [e.(checkpoints := [])], v.checkpointSeqs, v.landmarks)
    requires Waiting(log + [e.(checkpoints := [])], v.awaiting, v.infos)
    ensures ok && w.entries == v.entries && |w.infos| == |v.infos|
    ensures Sizes(log + [e], w.checkpointSeqs, w.landmarks)
    ensures Waiting(log + [e], w.awaiting, w.infos)
  {
    hide Sizes, Waiting, ExtendsLast;
    w := v;
    PartialEntry(log, e, 0);
    for k := 0 to |e.checkpoints|
      invariant w.entries == v.entries && |w.infos| == |v.infos|
      invariant Sizes(log + [e.(checkpoints := e.checkpoints[..k])], w.checkpointSeqs, w.landmarks)
      invariant Waiting(log + [e.(checkpoints := e.checkpoints[..k])], w.awaiting, w.infos)
    {
      PartialEntry(log, e, k);
      ghost var a, b := log + [e.(checkpoints := e.checkpoints[..k])], log + [e.(checkpoints := e.checkpoints[..k + 1])];
      var s := e.checkpoints[k];
      MarkSizes(a, b, s, w.checkpointSeqs, w.landmarks);
      var landmarks := w.landmarks;
      if s == LANDMARK { landmarks := landmarks + [size]; }
      var awaiting, infos;
      ok, awaiting, infos := ReachCheckpoint(a, b, s, size, w.awaiting, w.infos);
      if !ok { return; }
      w := Loop(w.entries, infos, awaiting, w.checkpointSeqs[s := size], landmarks);
    }
    PartialEntry(log, e, |e.checkpoints|);
    ok := true;
  }

  lemma {:induction false} CountAppended(log: seq<EntryConfig>, e: EntryConfig)
    ensures CertificateCount(log + [e]) == CertificateCount(log) + |e.certificates|
  {
    assert (log + [e])[..|log|] == log;
  }

  /** One entry: into the log, its certificates scheduled, its checkpoints reached. */
  method AddEntry(ghost log: seq<EntryConfig>, e: EntryConfig, known: seq<Bytes>, v: Loop) returns (ok: bool, w: Loop)
    requires Keeps(log, known, v)
    ensures ok <==> GoodEntry(e, known) && |log| + 1 < 0x8000_0000_0000_0000
    ensures ok ==> Keeps(log + [e], known, w)
  {
    hide Sizes, Waiting, CertificateCount;
    if e.entry.None? { return false, v; }
    // A Go slice cannot be longer than this.
    if |v.entries| == 0x7FFF_FFFF_FFFF_FFFF { return false, v; }
    var entries := v.entries + [e.entry.value];
    ghost var bare := e.(checkpoints := []);
    NewEntry(log, bare, v.awaiting, v.infos);
    NewEntrySizes(log, bare, v.checkpointSeqs, v.landmarks);
    var awaiting, infos;
    ok, awaiting, infos := ScheduleCertificates(log, e, |entries| - 1, known, v);
    if !ok { return false, v; }
    ok, w := ReachCheckpoints(log, e, |entries|, v.(entries := entries, awaiting := awaiting, infos := infos));
    CountAppended(log, e);
  }

  // ----- The whole run -----

  lemma {:induction false} TimesIn(e: EntryConfig, n: int)
    requires 0 < n
    ensures |Times(e, n)| == n && Times(e, n)[n - 1] == e
  {
    if n > 1 { TimesIn(e, n - 1); }
  }

  /** What is expanded so far is a prefix of what all configurations expand to. */
  lemma {:induction false} ExpandedPrefix(configs: seq<EntryConfig>, i: nat)
    requires i <= |configs|
    ensures Expanded(configs[..i]) <= Expanded(configs)
    decreases |configs|
  {
    if i == |configs| {
      assert configs[..i] == configs;
    } else {
      ExpandedPrefix(configs[..|configs| - 1], i);
      assert configs[..|configs| - 1][..i] == configs[..i];
    }
  }

  lemma {:induction false} TimesPrefix(e: EntryConfig, j: int, n: int)
    requires 0 <= j <= n
    ensures Times(e, j) <= Times(e, n)
    decreases n
  {
    if j < n { TimesPrefix(e, j, n - 1); }
  }

  /** The entry that is next after j repetitions of configuration i. */
  lemma {:induction false} NextEntry(configs: seq<EntryConfig>, i: nat, j: nat, n: int)
    requires i < |configs| && j < n
    requires n == if configs[i].repeat != 0 then configs[i].repeat else 1
    ensures var log := Expanded(configs[..i]) + Times(configs[i], j);
      log + [configs[i]] <= Expanded(configs)
  {
    var e := configs[i];
    ExpandedPrefix(configs, i + 1);
    assert configs[..i + 1][..i] == configs[..i];
    assert Expanded(configs[..i + 1]) == Expanded(configs[..i]) + Times(e, n);
    TimesPrefix(e, j + 1, n);
    assert Times(e, j + 1) == Times(e, j) + [e];
    var log := Expanded(configs[..i]) + Times(e, j);
    assert log + [e] == Expanded(configs[..i]) + Times(e, j + 1);
  }

  lemma {:induction false} BadEntry(log: seq<EntryConfig>, e: EntryConfig, all: seq<EntryConfig>, known: seq<Bytes>)
    requires log + [e] <= all
    requires !(GoodEntry(e, known) && |log| + 1 < 0x8000_0000_0000_0000)
    ensures !Schedulable(all, known)
  {
    hide GoodEntry;
    assert all[|log|] == (log + [e])[|log|] == e;
    assert |log| + 1 < 0x8000_0000_0000_0000 ==> !GoodAt(all, known, |log|);
  }

  lemma {:induction false} LeftWaiting(log: seq<EntryConfig>, known: seq<Bytes>, v: Loop, c: Name)
    requires Keeps(log, known, v) && c in v.awaiting
    ensures !Schedulable(log, known)
  {
    hide NextMark, LastMark, Landmarks, CertificateCount, Sizes, EntriesOf, GoodEntry, IsResolved, HasWait;
    var w := v.awaiting[c][0];
    assert IsOpenWait(log, v.infos, c, w);
    assert InfoOk(log, v.awaiting, v.infos, w.idx);
    var info := v.infos[w.idx];
    assert !GoodAt(log, known, info.index);
  }

  /** Entry and number are determined by the position. */
  lemma {:induction false} CountMono(log: seq<EntryConfig>, i: nat, j: nat)
    requires i < j <= |log|
    ensures CertificateCount(log[..i]) + |log[i].certificates| <= CertificateCount(log[..j])
    decreases j
  {
    assert log[..j][..j - 1] == log[..j - 1];
    if i < j - 1 { CountMono(log, i, j - 1); }
  }

  lemma {:induction false} InfoAt(log: seq<EntryConfig>, v: Loop, known: seq<Bytes>, i: nat, n: nat) returns (k: nat)
    requires Keeps(log, known, v)
    requires i < |log| && n < |log[i].certificates|
    ensures k < |v.infos| && v.infos[k].index == i && v.infos[k].num == n
  {
    hide NextMark, LastMark, Landmarks, CertificateCount, Sizes, EntriesOf, GoodEntry, IsResolved, HasWait;
    k := CertificateCount(log[..i]) + n;
    CountMono(log, i, |log|);
    assert log[..|log|] == log;
    assert InfoOk(log, v.awaiting, v.infos, k);
    var info := v.infos[k];
    if info.index < i { CountMono(log, info.index, i); }
    if i < info.index { CountMono(log, i, info.index); }
  }

  lemma {:induction false} AllResolved(log: seq<EntryConfig>, known: seq<Bytes>, v: Loop)
    requires Keeps(log, known, v) && |v.awaiting| == 0
    ensures IsScheduleOf(log, Schedule(v.entries, v.infos, v.landmarks))
    ensures Schedulable(log, known)
  {
    hide NextMark, LastMark, Landmarks, CertificateCount, EntriesOf, GoodEntry, IsCovering;
    forall k | 0 <= k < |v.infos|
      ensures IsScheduled(log, v.infos[k]) && InOrder(log, k, v.infos[k])
      ensures IsWaitingKind(v.infos[k].config) ==> IsResolved(log, v.infos[k])
    {
      assert InfoOk(log, v.awaiting, v.infos, k);
    }
    forall i | 0 <= i < |log| ensures GoodAt(log, known, i) {
      forall n | 0 <= n < |log[i].certificates| && IsWaitingKind(log[i].certificates[n])
        ensures NextMark(log, log[i].certificates[n].checkpoint, i) != 0
      {
        var k := InfoAt(log, v, known, i, n);
        assert InfoOk(log, v.awaiting, v.infos, k);
      }
    }
  }

  lemma {:induction false} StartKeeps(known: seq<Bytes>)
    ensures Keeps([], known, Loop([], [], map[], map[], [0]))
    ensures Expanded([]) == []
  {
  }

  /** The loop over all entries, and the check that no certificate is left waiting.
      It succeeds exactly for the configurations that can be scheduled, and then
      every certificate is as the log of entries alone says. */
  method BuildSchedule(configs: seq<EntryConfig>, known: seq<Bytes>) returns (r: Result<Schedule>)
    ensures r.Ok? <==> Schedulable(Expanded(configs), known)
    ensures r.Ok? ==> IsScheduleOf(Expanded(configs), r.value)
  {
    hide Keeps, Expanded, Times, Schedulable, IsScheduleOf, GoodEntry;
    ghost var log: seq<EntryConfig> := [];
    var v := Loop([], [], map[], map[], [0]);
    StartKeeps(known);
    assert configs[..0] == [];
    for i := 0 to |configs|
      invariant log == Expanded(configs[..i])
      invariant Keeps(log, known, v)
    {
      var e := configs[i];
      var repeat := 1;
      if e.repeat != 0 { repeat := e.repeat; }
      var j := 0;
      ghost var before := log;
      TimesNone(e);
      assert before + [] == before;
      while j < repeat
        invariant 0 <= j && (j <= repeat || j == 0)
        invariant log == before + Times(e, j)
        invariant Keeps(log, known, v)
        decreases repeat - j
      {
        NextEntry(configs, i, j, repeat);
        var ok, w := AddEntry(log, e, known, v);
        if !ok {
          BadEntry(log, e, Expanded(configs), known);
          return Err;
        }
        TimesNext(before, e, j + 1);
        log := log + [e];
        v := w;
        j := j + 1;
      }
      ExpandedNext(configs, i, j);
    }
    assert configs[..|configs|] == configs;
    if |v.awaiting| != 0 {
      ghost var c :| c in v.awaiting;
      LeftWaiting(log, known, v, c);
      return Err;
    }
    AllResolved(log, known, v);
    return Ok(Schedule(v.entries, v.infos, v.landmarks));
  }

  lemma {:induction false} TimesNone(e: EntryConfig)
    ensures Times(e, 0) == []
  {
  }

  lemma {:induction false} TimesNext(before: seq<EntryConfig>, e: EntryConfig, j: int)
    requires 0 < j
    ensures before + Times(e, j) == (before + Times(e, j - 1)) + [e]
  {
  }

  lemma {:induction false} ExpandedNext(configs: seq<EntryConfig>, i: nat, j: nat)
    requires i < |configs|
    requires var n := if configs[i].repeat != 0 then configs[i].repeat else 1; j == if n > 0 then n else 0
    ensures Expanded(configs[..i + 1]) == Expanded(configs[..i]) + Times(configs[i], j)
  {
    assert configs[..i + 1][..i] == configs[..i];
  }

  // ----- What the schedule guarantees -----

  /** Every certificate that waited for a checkpoint ends up with a valid subtree
      that contains its entry and lies within the final log. */
  lemma {:induction false} CertificateIsCovered(log: seq<EntryConfig>, s: Schedule, k: nat)
    requires IsScheduleOf(log, s) && k < |s.infos| && IsWaitingKind(s.infos[k].config)
    ensures var info := s.infos[k];
      IsSubtree(info.start, info.end) && info.start <= info.index < info.end <= |s.entries|
  {
    hide SubtreesForInterval, Landmarks, CertificateCount, LastMark, NextMark, IsSubtree;
    var info := s.infos[k];
    var c := info.config.checkpoint;
    CoverOfInterval(LastMark(log, c, info.index), NextMark(log, c, info.index));
  }

  /** n is the first size above index whose last entry names c. */
  predicate IsNextSize(log: seq<EntryConfig>, c: Name, index: nat, n: nat) {
    && index < n <= |log| && c in log[n - 1].checkpoints
    && forall i :: index <= i < n - 1 ==> c !in log[i].checkpoints
  }

  /** m is the last size up to index whose last entry names c, or zero if there is none. */
  predicate IsLastSize(log: seq<EntryConfig>, c: Name, index: nat, m: nat) {
    && m <= index <= |log| && (m == 0 || c in log[m - 1].checkpoints)
    && forall i :: m <= i < index ==> c !in log[i].checkpoints
  }

  lemma {:induction false} NextMarkIs(log: seq<EntryConfig>, c: Name, i: nat, n: nat)
    requires i <= |log|
    ensures IsNextSize(log, c, i, n) <==> n != 0 && n == NextMark(log, c, i)
    decreases |log| - i
  {
    if i < |log| && c !in log[i].checkpoints { NextMarkIs(log, c, i + 1, n); }
  }

  lemma {:induction false} LastMarkIs(log: seq<EntryConfig>, c: Name, i: nat, m: nat)
    requires i <= |log|
    ensures IsLastSize(log, c, i, m) <==> m == LastMark(log, c, i)
  {
    if i != 0 && c !in log[i - 1].checkpoints { LastMarkIs(log, c, i - 1, m); }
  }

  /** Each certificate that waited for a checkpoint of its sequence got one of the two
      subtrees that cover the entries since the sequence's previous checkpoint: the one
      that holds its entry. */
  lemma {:induction false} WaitingCertificateCovers(log: seq<EntryConfig>, s: Schedule, k: nat) returns (m: uint64, n: uint64, cover: Cover)
    requires IsScheduleOf(log, s) && k < |s.infos| && IsWaitingKind(s.infos[k].config)
    ensures var info := s.infos[k];
      && info.index < n <= |log| && info.config.checkpoint in log[n - 1].checkpoints
      && (forall i :: info.index <= i < n - 1 ==> info.config.checkpoint !in log[i].checkpoints)
      && m <= info.index && (m == 0 || info.config.checkpoint in log[m - 1].checkpoints)
      && (forall i :: m <= i < info.index ==> info.config.checkpoint !in log[i].checkpoints)
      && SubtreesForInterval(m, n) == Ok(cover)
      && ((info.start, info.end) == (cover.start1, cover.end1) || (info.start, info.end) == (cover.start2, cover.end2))
      && info.start <= info.index < info.end
  {
    hide SubtreesForInterval, Landmarks, CertificateCount, LastMark, NextMark, IsSubtree;
    var info := s.infos[k];
    var c := info.config.checkpoint;
    m, n := LastMark(log, c, info.index), NextMark(log, c, info.index);
    NextMarkIs(log, c, info.index, n);
    LastMarkIs(log, c, info.index, m);
    cover := SubtreesForInterval(m, n).value;
    CertificateIsCovered(log, s, k);
  }

  /** A certificate with coordinates of its own keeps them, and has no landmark number;
      neither has one that waits for another sequence. */
  lemma {:induction false} FixedCertificate(log: seq<EntryConfig>, s: Schedule, k: nat)
    requires IsScheduleOf(log, s) && k < |s.infos|
    ensures var info := s.infos[k];
      && (info.config.subtreeEnd != 0 ==>
           && info.config.checkpoint == ""
           && info.start == info.config.subtreeStart && info.end == info.config.subtreeEnd && info.landmarkNum == 0)
      && (info.config.subtreeEnd == 0 ==> info.config.checkpoint != "")
      && (info.config.checkpoint != LANDMARK ==> info.landmarkNum == 0)
  {
    hide Landmarks, CertificateCount, IsResolved;
    assert IsScheduled(log, s.infos[k]);
  }

  /** Every certificate of every entry is scheduled once, in the order of the entries. */
  lemma {:induction false} EveryCertificateOnce(log: seq<EntryConfig>, s: Schedule, i: nat, n: nat) returns (k: nat)
    requires IsScheduleOf(log, s) && i < |log| && n < |log[i].certificates|
    ensures k < |s.infos| && s.infos[k].index == i && s.infos[k].num == n && s.infos[k].config == log[i].certificates[n]
    ensures forall j :: 0 <= j < |s.infos| && s.infos[j].index == i && s.infos[j].num == n ==> j == k
  {
    hide NextMark, LastMark, Landmarks, CertificateCount, EntriesOf, IsResolved;
    k := CertificateCount(log[..i]) + n;
    CountMono(log, i, |log|);
    assert log[..|log|] == log;
    assert IsScheduled(log, s.infos[k]) && InOrder(log, k, s.infos[k]);
    var info := s.infos[k];
    if info.index < i { CountMono(log, info.index, i); }
    if i < info.index { CountMono(log, i, info.index); }
  }

  lemma {:induction false} ScheduledInOrder(log: seq<EntryConfig>, s: Schedule, j: nat, k: nat)
    requires IsScheduleOf(log, s) && j < k < |s.infos|
    ensures s.infos[j].index < s.infos[k].index || (s.infos[j].index == s.infos[k].index && s.infos[j].num < s.infos[k].num)
  {
    hide NextMark, LastMark, Landmarks, CertificateCount, EntriesOf, IsResolved;
    var a, b := s.infos[j], s.infos[k];
    assert IsScheduled(log, a) && InOrder(log, j, a) && IsScheduled(log, b) && InOrder(log, k, b);
    if b.index < a.index { CountMono(log, b.index, a.index); }
  }

  /** A certificate of entry i has either coordinates or a checkpoint, and known
      cosigners; if it has a checkpoint, this or a later entry names it. */
  predicate CanSchedule(log: seq<EntryConfig>, known: seq<Bytes>, i: nat, config: CertConfig) {
    && (config.subtreeEnd != 0 <==> config.checkpoint == "")
    && (forall c :: c in config.cosigners ==> c in known)
    && (config.subtreeEnd == 0 ==> exists j :: i <= j < |log| && config.checkpoint in log[j].checkpoints)
  }

  /** Which configurations can be scheduled. */
  lemma {:induction false} SchedulableIs(log: seq<EntryConfig>, known: seq<Bytes>)
    ensures Schedulable(log, known) <==>
      && |log| < 0x8000_0000_0000_0000
      && (forall i :: 0 <= i < |log| ==> log[i].entry.Some?)
      && (forall i, n :: 0 <= i < |log| && 0 <= n < |log[i].certificates| ==> CanSchedule(log, known, i, log[i].certificates[n]))
  {
    hide CanSchedule, GoodAt;
    forall i | 0 <= i < |log|
      ensures GoodAt(log, known, i) <==>
        && log[i].entry.Some?
        && forall n :: 0 <= n < |log[i].certificates| ==> CanSchedule(log, known, i, log[i].certificates[n])
    {
      GoodAtIs(log, known, i);
    }
  }

  lemma {:induction false} GoodAtIs(log: seq<EntryConfig>, known: seq<Bytes>, i: nat)
    requires i < |log|
    ensures GoodAt(log, known, i) <==>
      && log[i].entry.Some?
      && forall n :: 0 <= n < |log[i].certificates| ==> CanSchedule(log, known, i, log[i].certificates[n])
  {
    hide NextMark, CanSchedule, GoodCertificate;
    forall n | 0 <= n < |log[i].certificates|
      ensures var config := log[i].certificates[n];
        CanSchedule(log, known, i, config) <==>
          GoodCertificate(config, known) && (IsWaitingKind(config) ==> NextMark(log, config.checkpoint, i) != 0)
    {
      CanScheduleIs(log, known, i, log[i].certificates[n]);
    }
  }

  lemma {:induction false} CanScheduleIs(log: seq<EntryConfig>, known: seq<Bytes>, i: nat, config: CertConfig)
    requires i < |log|
    ensures CanSchedule(log, known, i, config) <==>
      GoodCertificate(config, known) && (IsWaitingKind(config) ==> NextMark(log, config.checkpoint, i) != 0)
  {
    hide NextMark;
    NextMarkExists(log, config.checkpoint, i);
    if forall c :: c in config.cosigners ==> c in known {
      forall k | 0 <= k < |config.cosigners| ensures config.cosigners[k] in known {}
    }
  }

  lemma {:induction false} NextMarkExists(log: seq<EntryConfig>, c: Name, i: nat)
    requires i <= |log|
    ensures NextMark(log, c, i) != 0 <==> exists j :: i <= j < |log| && c in log[j].checkpoints
    decreases |log| - i
  {
    if i < |log| && c !in log[i].checkpoints { NextMarkExists(log, c, i + 1); }
  }

  /** A configuration stands for one entry, or for as many as it says. */
  lemma {:induction false} ExpandedIs(configs: seq<EntryConfig>, e: EntryConfig)
    ensures Expanded([]) == []
    ensures Expanded(configs + [e]) == Expanded(configs)
      + seq(if e.repeat == 0 then 1 else if e.repeat < 0 then 0 else e.repeat, _ => e)
  {
    assert (configs + [e])[..|configs|] == configs;
    TimesIs(e, if e.repeat != 0 then e.repeat else 1);
  }

  lemma {:induction false} TimesIs(e: EntryConfig, n: int)
    ensures Times(e, n) == seq(if n < 0 then 0 else n, _ => e)
  {
    if n > 0 { TimesIs(e, n - 1); }
  }

  /** The landmark sizes are zero and the sizes whose last entry names the sequence. */
  lemma {:induction false} LandmarksAre(log: seq<EntryConfig>, v: uint64)
    requires |log| < 0x8000_0000_0000_0000
    ensures v in Landmarks(log) <==> v == 0 || (v <= |log| && LANDMARK in log[v - 1].checkpoints)
    ensures Landmarks(log)[0] == 0
  {
    hide Repeated;
    if |log| != 0 {
      var n := |log| - 1;
      LandmarksAre(log[..n], v);
      RepeatedAll(|log|, log[n].checkpoints);
      var more := Repeated(|log|, log[n].checkpoints);
      if v == |log| && LANDMARK in log[n].checkpoints { assert more[0] == v; }
    }
  }

  /** The list of landmark sizes grows with the log. */
  lemma {:induction false} LandmarksPrefix(log: seq<EntryConfig>, i: nat)
    requires i <= |log| < 0x8000_0000_0000_0000
    ensures Landmarks(log[..i]) <= Landmarks(log)
    decreases |log|
  {
    hide Repeated;
    if i == |log| {
      assert log[..i] == log;
    } else {
      LandmarksPrefix(log[..|log| - 1], i);
      assert log[..|log| - 1][..i] == log[..i];
    }
  }

  lemma {:induction false} RepeatedAll(v: uint64, names: seq<Name>)
    ensures |Repeated(v, names)| != 0 <==> LANDMARK in names
    ensures forall k :: 0 <= k < |Repeated(v, names)| ==> Repeated(v, names)[k] == v
  {
    if |names| != 0 {
      RepeatedAll(v, names[..|names| - 1]);
      assert names == names[..|names| - 1] + [names[|names| - 1]];
    }
  }

  /** The last landmark is the last checkpoint of the landmark sequence. */
  lemma {:induction false} LastLandmark(log: seq<EntryConfig>)
    requires |log| < 0x8000_0000_0000_0000
    ensures Landmarks(log)[|Landmarks(log)| - 1] == LastMark(log, LANDMARK, |log|)
  {
    hide Repeated;
    if |log| != 0 {
      var n := |log| - 1;
      LastLandmark(log[..n]);
      RepeatedAll(|log|, log[n].checkpoints);
      assert log[..n][..n] == log[..n];
      LastMarkPrefix(log, log[..n], LANDMARK, n);
    }
  }

  /** Up to the next checkpoint no landmark is added. */
  lemma {:induction false} NoLandmarkBefore(log: seq<EntryConfig>, i: nat, j: nat)
    requires i <= j <= |log| < 0x8000_0000_0000_0000
    requires forall m :: i <= m < j ==> LANDMARK !in log[m].checkpoints
    ensures Landmarks(log[..j]) == Landmarks(log[..i])
    decreases j
  {
    hide Repeated;
    if i < j {
      NoLandmarkBefore(log, i, j - 1);
      assert log[..j][..j - 1] == log[..j - 1];
      RepeatedAll(j, log[j - 1].checkpoints);
      assert |Repeated(j, log[j - 1].checkpoints)| == 0;
    }
  }

  lemma {:induction false} NextMarkIsFirst(log: seq<EntryConfig>, c: Name, i: nat)
    requires i <= |log| && NextMark(log, c, i) != 0
    ensures forall m :: i <= m < NextMark(log, c, i) - 1 ==> c !in log[m].checkpoints
    decreases |log| - i
  {
    if i < |log| && c !in log[i].checkpoints { NextMarkIsFirst(log, c, i + 1); }
  }

  /** The landmark numbered after the first i entries is the next checkpoint. */
  lemma {:induction false} NextLandmark(log: seq<EntryConfig>, i: nat)
    requires i <= |log| < 0x8000_0000_0000_0000
    requires NextMark(log, LANDMARK, i) != 0
    ensures var L := |Landmarks(log[..i])|;
      L < |Landmarks(log)| && Landmarks(log)[L] == NextMark(log, LANDMARK, i)
      && Landmarks(log)[L - 1] == LastMark(log, LANDMARK, i)
  {
    hide Repeated, LastMark, NextMark;
    var next := NextMark(log, LANDMARK, i);
    NextMarkIsFirst(log, LANDMARK, i);
    NoLandmarkBefore(log, i, next - 1);
    assert log[..next][..next - 1] == log[..next - 1];
    RepeatedAll(next, log[next - 1].checkpoints);
    var before, after := Landmarks(log[..i]), Landmarks(log[..next]);
    assert after == before + Repeated(next, log[next - 1].checkpoints);
    assert after[|before|] == next && after[|before| - 1] == before[|before| - 1];
    LandmarksPrefix(log, next);
    LastLandmark(log[..i]);
    assert log[..i][..i] == log[..i];
    LastMarkPrefix(log, log[..i], LANDMARK, i);
  }

  /** A landmark certificate has a landmark number L with its entry between landmarks
      L - 1 and L, and its subtree is one of the two that cover that interval, which
      the summary prints for landmark L. */
  lemma {:induction false} LandmarkNumber(log: seq<EntryConfig>, s: Schedule, k: nat)
    requires IsScheduleOf(log, s) && k < |s.infos|
    requires IsWaitingKind(s.infos[k].config) && s.infos[k].config.checkpoint == LANDMARK
    ensures var info := s.infos[k];
      var L := info.landmarkNum;
      && 0 < L < |s.landmarks|
      && s.landmarks[L - 1] <= info.index < s.landmarks[L]
      && SubtreesForInterval(s.landmarks[L - 1], s.landmarks[L]).Ok?
      && var c := SubtreesForInterval(s.landmarks[L - 1], s.landmarks[L]).value;
         ((info.start, info.end) == (c.start1, c.end1) || (info.start, info.end) == (c.start2, c.end2))
  {
    hide SubtreesForInterval, Landmarks, CertificateCount, LastMark, NextMark;
    NextLandmark(log, s.infos[k].index);
  }

  /** Landmarks never go back, so the summary never fails. */
  lemma {:induction false} LandmarksAscend(log: seq<EntryConfig>, i: nat)
    requires |log| < 0x8000_0000_0000_0000 && i + 1 < |Landmarks(log)|
    ensures Landmarks(log)[i] <= Landmarks(log)[i + 1] <= |log|
    ensures SubtreesForInterval(Landmarks(log)[i], Landmarks(log)[i + 1]).Ok?
  {
    hide Repeated, SubtreesForInterval;
    if |log| != 0 {
      var n := |log| - 1;
      var before := Landmarks(log[..n]);
      RepeatedAll(|log|, log[n].checkpoints);
      LastLandmark(log[..n]);
      if i + 1 < |before| { LandmarksAscend(log[..n], i); }
    }
    CoverOfInterval(Landmarks(log)[i], Landmarks(log)[i + 1]);
  }

  /** The draft wants every landmark larger than the one before. The loop keeps to it
      exactly when no entry names the landmark sequence twice. */
  lemma {:induction false} LandmarksIncrease(log: seq<EntryConfig>)
    requires |log| < 0x8000_0000_0000_0000
    ensures Increasing(Landmarks(log)) <==> forall i :: 0 <= i < |log| ==> MarksOnce(log[i].checkpoints)
  {
    hide Repeated, MarksOnce, Increasing;
    if |log| == 0 {
      IncreasingStart();
    } else {
      var n := |log| - 1;
      var names := log[n].checkpoints;
      LandmarksIncrease(log[..n]);
      LastLandmark(log[..n]);
      RepeatedAll(|log|, names);
      RepeatedOnce(|log|, names);
      IncreasingMore(Landmarks(log[..n]), Repeated(|log|, names), |log|);
      assert forall i :: 0 <= i < n ==> log[i] == log[..n][i];
    }
  }

  predicate Increasing(l: seq<uint64>) { forall i :: 0 <= i < |l| - 1 ==> l[i] < l[i + 1] }

  predicate MarksOnce(names: seq<Name>) {
    forall a, b :: 0 <= a < b < |names| ==> !(names[a] == LANDMARK && names[b] == LANDMARK)
  }

  lemma {:induction false} IncreasingStart()
    ensures Increasing([0])
  {
  }

  lemma {:induction false} IncreasingMore(l: seq<uint64>, more: seq<uint64>, v: uint64)
    requires 0 < |l| && l[|l| - 1] < v && forall k :: 0 <= k < |more| ==> more[k] == v
    ensures Increasing(l + more) <==> Increasing(l) && |more| <= 1
  {
    var m := l + more;
    assert |more| > 1 ==> m[|l|] == v && m[|l| + 1] == v;
    if Increasing(m) {
      forall i | 0 <= i < |l| - 1 ensures l[i] < l[i + 1] { assert m[i] < m[i + 1]; }
    }
  }

  lemma {:induction false} RepeatedOnce(v: uint64, names: seq<Name>)
    ensures |Repeated(v, names)| <= 1 <==> MarksOnce(names)
  {
    if |names| != 0 {
      var n := |names| - 1;
      var init := names[..n];
      RepeatedOnce(v, init);
      RepeatedAll(v, init);
      assert forall k :: 0 <= k < n ==> init[k] == names[k];
      if names[n] == LANDMARK && LANDMARK in init {
        var a :| 0 <= a < n && init[a] == LANDMARK;
        assert names[a] == LANDMARK && names[n] == LANDMARK;
      }
    }
  }

  /** An entry may name it twice, and then a landmark covers nothing new. */
  lemma {:induction false} LandmarksCanRepeat(e: EntryConfig)
    requires e.checkpoints == [LANDMARK, LANDMARK]
    ensures Landmarks([e]) == [0, 1, 1]
  {
    RepeatedMore(1, [LANDMARK], LANDMARK);
    RepeatedMore(1, [], LANDMARK);
    RepeatedNone(1);
    assert [LANDMARK] + [LANDMARK] == e.checkpoints;
    assert [] + [LANDMARK] == [LANDMARK];
    assert [e][..0] == [];
  }
}
