/** The record the daemon broadcasts, and how one SCUD485 reply fills it. Scaled fields hold the raw
    integers of the protocol. */
module Battery {
  import opened Wrappers
  import opened Bytes

  datatype BatteryStatus = BatteryStatus(
    voltage: int, current: int, temperature: int,
    percentage: int, charge: int, capacity: int, designCapacity: int,
    protectStatus: int, workState: int,
    maxCellVoltage: int, minCellVoltage: int,
    swVersion: int, hwVersion: int, soh: int, cycles: int, ioState: int, powerOn: int)

  const EMPTY := BatteryStatus(0, 0, 0, 0, 0, 0, 0, 0, 0, 0, 0, 0, 0, 0, 0, 0, 0)

  const USER_INFO_LEN := 28
  const SUMMARY_LEN := 38
  const CELLS := 15

  function Word(d: seq<byte>, offset: nat): nat
    requires offset + 1 < |d|
  {
    U16(d[offset], d[offset + 1])
  }

  function Signed(n: nat): int
    requires n < 0x1_0000
  {
    if n < 0x8000 then n else n - 0x1_0000
  }

  /** The 0x61 reply reports no cell extremes. */
  predicate OmitsExtremes(d: seq<byte>)
    requires |d| == USER_INFO_LEN
  {
    Word(d, 12) == 0 && Word(d, 14) == 0
  }

  /** The cell voltages of a 0x31 reply. */
  function CellsOf(d: seq<byte>): (cells: seq<nat>)
    requires |d| == SUMMARY_LEN
    ensures |cells| == CELLS
  {
    seq(CELLS, i requires 0 <= i < CELLS => Word(d, 2 * i))
  }

  // ---- cell extremes -------------------------------------------------------------------------------

  /** Some cell is there and does not read as the start value of the minimum. */
  predicate HasCell(cells: seq<nat>) { exists i | 0 <= i < |cells| :: 0 < cells[i] < 0xFFFF }

  predicate IsHighest(cells: seq<nat>, m: nat) {
    m in cells && m > 0 && forall i | 0 <= i < |cells| :: cells[i] <= m
  }

  predicate IsLowest(cells: seq<nat>, m: nat) {
    m in cells && m > 0 && forall i | 0 <= i < |cells| && cells[i] != 0 :: m <= cells[i]
  }

  /** What the backfill makes of the cells: nothing, or the highest and the lowest that is not zero. */
  predicate Backfilled(cells: seq<nat>, r: Option<(nat, nat)>) {
    match r
    case None => !HasCell(cells)
    case Some((high, low)) => HasCell(cells) && IsHighest(cells, high) && IsLowest(cells, low)
  }

  lemma BackfilledUnique(cells: seq<nat>, r: Option<(nat, nat)>, q: Option<(nat, nat)>)
    requires Backfilled(cells, r) && Backfilled(cells, q)
    ensures r == q
  {
    if r.Some? {
      assert r.value.0 == q.value.0;
      assert r.value.1 == q.value.1;
    }
  }

  /** The loop over the cell voltages, for any number of cells. */
  method CellExtremes(cells: seq<nat>) returns (r: Option<(nat, nat)>)
    requires forall i | 0 <= i < |cells| :: cells[i] <= 0xFFFF
    ensures Backfilled(cells, r)
  {
    var mx, mn := 0, 0xFFFF;
    for i := 0 to |cells|
      invariant 0 <= mx <= 0xFFFF && 0 < mn <= 0xFFFF
      invariant forall k | 0 <= k < i :: cells[k] <= mx
      invariant forall k | 0 <= k < i && cells[k] != 0 :: mn <= cells[k]
      invariant mx > 0 ==> mx in cells[..i]
      invariant mn < 0xFFFF ==> mn in cells[..i]
    {
      var v := cells[i];
      if v == 0 { continue; }
      if v > mx { mx := v; }
      if v < mn { mn := v; }
    }
    if mn != 0xFFFF {
      r := Some((mx, mn));
    } else {
      r := None;
    }
  }

  // ---- the snapshot --------------------------------------------------------------------------------

  /** The record one 0x61 payload stands for. */
  function UserInfo(d: seq<byte>): BatteryStatus
    requires |d| == USER_INFO_LEN
  {
    var flag := Word(d, 0);
    BatteryStatus(
      voltage := Word(d, 10),
      current := if Word(d, 2) > 0 then Word(d, 2) as int else -(Word(d, 4) as int),
      temperature := Signed(Word(d, 24)),
      percentage := Word(d, 20),
      charge := Word(d, 18),
      capacity := Word(d, 16),
      designCapacity := Word(d, 16),
      protectStatus := flag,
      workState := flag % 16,
      maxCellVoltage := Word(d, 12),
      minCellVoltage := Word(d, 14),
      swVersion := 0, hwVersion := 0, soh := 0,
      cycles := Word(d, 26),
      ioState := 0,
      powerOn := flag % 2)
  }

  function WithExtremes(status: BatteryStatus, r: Option<(nat, nat)>): BatteryStatus {
    match r
    case None => status
    case Some((high, low)) => status.(maxCellVoltage := high, minCellVoltage := low)
  }

  /** The record of one round: the 0x61 payload alone, or with the extremes of one 0x31 payload. */
  ghost predicate IsSnapshot(status: BatteryStatus, user: seq<byte>, summary: Option<seq<byte>>)
    requires |user| == USER_INFO_LEN
    requires summary.Some? ==> |summary.value| == SUMMARY_LEN
  {
    match summary
    case None => status == UserInfo(user)
    case Some(d) =>
      exists r :: Backfilled(CellsOf(d), r) && status == WithExtremes(UserInfo(user), r)
  }

  /** A record is determined by the payloads of its round. */
  lemma SnapshotUnique(a: BatteryStatus, b: BatteryStatus, user: seq<byte>, summary: Option<seq<byte>>)
    requires |user| == USER_INFO_LEN
    requires summary.Some? ==> |summary.value| == SUMMARY_LEN
    requires IsSnapshot(a, user, summary) && IsSnapshot(b, user, summary)
    ensures a == b
  {
    if summary.Some? {
      var cells := CellsOf(summary.value);
      forall r, q | Backfilled(cells, r) && Backfilled(cells, q) ensures r == q {
        BackfilledUnique(cells, r, q);
      }
    }
  }

  // ---- payloads as the battery lays them out ---------------------------------------------------------------

  /** The fields of a 0x61 payload; the words in between are not used. */
  datatype UserFields = UserFields(flag: nat, charging: nat, discharging: nat, voltage: nat, highest: nat, lowest: nat,
                                   full: nat, remaining: nat, percentage: nat, temperature: int, cycles: nat,
                                   unused: (nat, nat, nat))

  function FieldWords(f: UserFields): seq<nat>
    requires -0x8000 <= f.temperature < 0x8000
  {
    [f.flag, f.charging, f.discharging, f.unused.0, f.unused.1, f.voltage, f.highest, f.lowest,
     f.full, f.remaining, f.percentage, f.unused.2,
     if f.temperature < 0 then f.temperature + 0x1_0000 else f.temperature, f.cycles]
  }

  predicate Encodable(f: UserFields) { -0x8000 <= f.temperature < 0x8000 && AreWords(FieldWords(f)) }

  function UserPayload(f: UserFields): (d: seq<byte>)
    requires Encodable(f)
    ensures |d| == 28
  {
    Words(FieldWords(f))
  }

  /** The record these fields stand for. */
  function RecordOf(f: UserFields): BatteryStatus {
    BatteryStatus(
      voltage := f.voltage,
      current := if f.charging > 0 then f.charging as int else -(f.discharging as int),
      temperature := f.temperature,
      percentage := f.percentage, charge := f.remaining, capacity := f.full, designCapacity := f.full,
      protectStatus := f.flag, workState := f.flag % 16,
      maxCellVoltage := f.highest, minCellVoltage := f.lowest,
      swVersion := 0, hwVersion := 0, soh := 0, cycles := f.cycles, ioState := 0, powerOn := f.flag % 2)
  }

  lemma WordIs(words: seq<nat>, offset: nat, k: nat)
    requires AreWords(words) && k < |words| && offset == 2 * k
    ensures Word(Words(words), offset) == words[k]
  {
    WordsAt(words, k);
  }

  /** Each field of a payload is read back into its place. */
  lemma UserInfoRoundTrip(f: UserFields)
    requires Encodable(f)
    ensures UserInfo(UserPayload(f)) == RecordOf(f)
    ensures OmitsExtremes(UserPayload(f)) <==> f.highest == 0 && f.lowest == 0
  {
    hide Word, Words;
    var w := FieldWords(f);
    WordIs(w, 0, 0);
    WordIs(w, 2, 1);
    WordIs(w, 4, 2);
    WordIs(w, 10, 5);
    WordIs(w, 12, 6);
    WordIs(w, 14, 7);
    WordIs(w, 16, 8);
    WordIs(w, 18, 9);
    WordIs(w, 20, 10);
    WordIs(w, 24, 12);
    WordIs(w, 26, 13);
  }

  /** The first fifteen words of a 0x31 payload are the cells. */
  lemma CellsRoundTrip(words: seq<nat>)
    requires |words| == 19 && AreWords(words)
    ensures CellsOf(Words(words)) == words[..15]
  {
    hide Word, Words;
    forall i | 0 <= i < 15 ensures CellsOf(Words(words))[i] == words[i] {
      WordIs(words, 2 * i, i);
    }
  }

  /** The record of a round, from the fields and the cells the battery sent: its own extremes when it reports
      any, or else those of the cells that are not zero, when some of them is below FFFF. */
  lemma SnapshotOfFields(status: BatteryStatus, f: UserFields, words: Option<seq<nat>>)
    requires Encodable(f) && (words.Some? ==> |words.value| == 19 && AreWords(words.value))
    requires IsSnapshot(status, UserPayload(f), match words case None => None case Some(w) => Some(Words(w)))
    ensures words.None? || !HasCell(words.value[..15]) ==> status == RecordOf(f)
    ensures words.Some? && HasCell(words.value[..15]) ==>
              && IsHighest(words.value[..15], status.maxCellVoltage)
              && IsLowest(words.value[..15], status.minCellVoltage)
              && status == RecordOf(f).(maxCellVoltage := status.maxCellVoltage,
                                        minCellVoltage := status.minCellVoltage)
  {
    hide UserInfo, CellsOf, Words, FieldWords, RecordOf, IsHighest, IsLowest, HasCell;
    UserInfoRoundTrip(f);
    if words.Some? { CellsRoundTrip(words.value); }
  }
}
