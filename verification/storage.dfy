/**
 * utils/storage.ts: the history of saved whispers, kept as one JSON array in
 * one storage slot. Reading is tolerant (each item is normalised or
 * dropped, duplicate ids keep their first occurrence); every write keeps the
 * 50 newest records; an empty store is seeded with the preset whispers.
 *
 * The slot is the value `JSON.parse` gives for the stored text, `None` when
 * nothing is stored or the text is empty or not JSON; writing a record list
 * stores the value `JSON.stringify` would produce for it. `Date.now()` is
 * the parameter `now` (one reading per operation) and the random id suffix
 * of `saveSnowflake` is the parameter `suffix`.
 */
module Storage {
  import opened Wrappers
  import opened Text
  import opened JsValues

  const MaxRecords: nat := 50
  /** One hour in milliseconds: the spacing of preset timestamps. */
  const PresetSpacing: int := 3600000
  /** Milliseconds subtracted per item index for a record without a timestamp. */
  const LegacySpacing: int := 1000

  /** `🔒 ENCRYPTED_WHISPER`: U+1F512 as a surrogate pair, a space, then ASCII. */
  const EncryptedPlaceholder: String :=
    [0xD83D, 0xDD12, 32, 69, 78, 67, 82, 89, 80, 84, 69, 68, 95, 87, 72, 73, 83, 80, 69, 82]

  // Property names and fixed strings, as code units.
  const KeyId: String := [105, 100]
  const KeyMessage: String := [109, 101, 115, 115, 97, 103, 101]
  const KeyEncrypted: String := [101, 110, 99, 114, 121, 112, 116, 101, 100, 77, 101, 115, 115, 97, 103, 101]
  const KeyHasPassword: String := [104, 97, 115, 80, 97, 115, 115, 119, 111, 114, 100]
  const KeyTimestamp: String := [116, 105, 109, 101, 115, 116, 97, 109, 112]
  const KeyEssence: String := [101, 115, 115, 101, 110, 99, 101]
  const StardustName: String := [115, 116, 97, 114, 100, 117, 115, 116]
  const AuroraName: String := [97, 117, 114, 111, 114, 97]
  const PresetPrefix: String := [112, 114, 101, 115, 101, 116, 95]
  const UserPrefix: String := [117, 115, 101, 114, 95]
  const LegacyPrefix: String := [108, 101, 103, 97, 99, 121, 95]
  const Underscore: CodeUnit := 95

  datatype Essence = Aurora | Stardust

  /** `SnowflakeRecord`; a record without ciphertext has `encryptedMessage == None`. */
  datatype Record = Record(
    id: String,
    message: String,
    encryptedMessage: Option<String>,
    hasPassword: bool,
    timestamp: int,
    essence: Essence)

  /**
   * The records normalisation produces, and the only ones the store writes:
   * a trimmed non-empty message, and ciphertext only when it is non-empty
   * and flagged by `hasPassword`.
   */
  predicate Canonical(r: Record) {
    r.message != [] && IsTrimmed(r.message) &&
    (r.encryptedMessage.Some? ==> r.encryptedMessage.value != [] && r.hasPassword)
  }

  predicate AllCanonical(rs: seq<Record>) {
    forall k | 0 <= k < |rs| :: Canonical(rs[k])
  }

  lemma PlaceholderCanonical()
    ensures EncryptedPlaceholder != [] && IsTrimmed(EncryptedPlaceholder)
  {
  }

  // ---------------------------------------------------------------------------
  // normalizeRecord
  // ---------------------------------------------------------------------------

  /** The ciphertext a stored item carries: a non-empty string, otherwise none. */
  function StoredCiphertext(raw: JsValue): (e: Option<String>)
    ensures e.Some? <==> GetProp(raw, KeyEncrypted).Str? && GetProp(raw, KeyEncrypted).s != []
    ensures e.Some? ==> e.value == GetProp(raw, KeyEncrypted).s
  {
    match GetProp(raw, KeyEncrypted)
    case Str(s) => if s != [] then Some(s) else None
    case _ => None
  }

  /** The trimmed message a stored item carries, or the empty string. */
  function StoredMessage(raw: JsValue): (m: String)
    ensures GetProp(raw, KeyMessage).Str? ==> m == Trim(GetProp(raw, KeyMessage).s)
    ensures !GetProp(raw, KeyMessage).Str? ==> m == []
  {
    match GetProp(raw, KeyMessage)
    case Str(s) => Trim(s)
    case _ => []
  }

  /** The id: a string as it is, a number as `String(n)`, otherwise `legacy_<now>_<index>`. */
  function StoredId(raw: JsValue, index: nat, now: int): String {
    match GetProp(raw, KeyId)
    case Str(s) => s
    case Num(x) => NumberToString(x)
    case _ => LegacyPrefix + Decimal(now) + [Underscore] + Decimal(index)
  }

  /** The timestamp: a finite number as it is, otherwise `now - index * 1000`. */
  function StoredTimestamp(raw: JsValue, index: nat, now: int): int {
    match GetProp(raw, KeyTimestamp)
    case Num(Finite(t)) => t
    case _ => now - index * LegacySpacing
  }

  /** `candidate.essence === 'stardust'`. */
  predicate NamesStardust(v: JsValue) {
    v.Str? && v.s == StardustName
  }

  function StoredEssence(raw: JsValue): Essence {
    if NamesStardust(GetProp(raw, KeyEssence)) then Stardust else Aurora
  }

  /** `hasPassword`: the stored flag is truthy or a ciphertext is present. */
  predicate StoredHasPassword(raw: JsValue) {
    Truthy(GetProp(raw, KeyHasPassword)) || StoredCiphertext(raw).Some?
  }

  /**
   * `normalizeRecord(raw, index)`: an object becomes a record, with every
   * missing or ill-typed field replaced by its default; anything else, or an
   * object with neither a message nor a password, is dropped.
   */
  function NormalizeRecord(raw: JsValue, index: nat, now: int): (r: Option<Record>)
    ensures r.Some? ==> IsObjectLike(raw) && Canonical(r.value)
    ensures r.Some? ==> r.value.encryptedMessage == StoredCiphertext(raw)
    ensures r.Some? ==> (r.value.hasPassword <==> Truthy(GetProp(raw, KeyHasPassword)) || StoredCiphertext(raw).Some?)
    ensures r.Some? ==> (r.value.essence == Stardust <==> NamesStardust(GetProp(raw, KeyEssence)))
    ensures r.None? <==> (!IsObjectLike(raw) || (StoredMessage(raw) == [] && !StoredHasPassword(raw)))
  {
    if !IsObjectLike(raw) then None
    else
      var hasPassword := StoredHasPassword(raw);
      var source := StoredMessage(raw);
      if source == [] && !hasPassword then None
      else
        Some(Record(StoredId(raw, index, now), NormalizedMessage(raw, hasPassword), StoredCiphertext(raw), hasPassword,
          StoredTimestamp(raw, index, now), StoredEssence(raw)))
  }

  /** The message of a normalised record: the trimmed stored message, or the placeholder behind a password. */
  function NormalizedMessage(raw: JsValue, hasPassword: bool): (m: String)
    requires StoredMessage(raw) != [] || hasPassword
    ensures m != [] && IsTrimmed(m)
  {
    var source := StoredMessage(raw);
    if source != [] then source
    else
      PlaceholderCanonical();
      EncryptedPlaceholder
  }

  /** The fields of a record that normalisation reads from the item itself. */
  lemma NormalizeKeepsFields(raw: JsValue, index: nat, now: int)
    requires NormalizeRecord(raw, index, now).Some?
    ensures var r := NormalizeRecord(raw, index, now).value;
      (GetProp(raw, KeyId).Str? ==> r.id == GetProp(raw, KeyId).s) &&
      (GetProp(raw, KeyId).Num? ==> r.id == NumberToString(GetProp(raw, KeyId).num)) &&
      (IsFiniteNumber(GetProp(raw, KeyTimestamp)) ==> r.timestamp == GetProp(raw, KeyTimestamp).num.n) &&
      (!IsFiniteNumber(GetProp(raw, KeyTimestamp)) ==> r.timestamp == now - index * LegacySpacing) &&
      (StoredMessage(raw) != [] ==> r.message == StoredMessage(raw)) &&
      (StoredMessage(raw) == [] ==> r.message == EncryptedPlaceholder)
  {
  }

  // ---------------------------------------------------------------------------
  // The stored form of a record
  // ---------------------------------------------------------------------------

  function EssenceName(e: Essence): String {
    if e == Stardust then StardustName else AuroraName
  }

  /** The object `JSON.stringify` writes for a record; an absent ciphertext is omitted. */
  function ToJs(r: Record): (v: JsValue)
    ensures v.Obj?
  {
    var base := map[
      KeyId := Str(r.id),
      KeyMessage := Str(r.message),
      KeyHasPassword := Bool(r.hasPassword),
      KeyTimestamp := Num(Finite(r.timestamp)),
      KeyEssence := Str(EssenceName(r.essence))];
    Obj(if r.encryptedMessage.Some? then base[KeyEncrypted := Str(r.encryptedMessage.value)] else base)
  }

  /** The stored array of a record list. */
  function Encode(rs: seq<Record>): (v: JsValue)
    ensures v.Arr? && |v.elems| == |rs|
    ensures forall k | 0 <= k < |rs| :: v.elems[k] == ToJs(rs[k])
  {
    Arr(seq(|rs|, k requires 0 <= k < |rs| => ToJs(rs[k])))
  }

  lemma KeysDistinct()
    ensures KeyId != KeyMessage && KeyId != KeyEncrypted && KeyId != KeyHasPassword && KeyId != KeyTimestamp && KeyId != KeyEssence
    ensures KeyMessage != KeyEncrypted && KeyMessage != KeyHasPassword && KeyMessage != KeyTimestamp && KeyMessage != KeyEssence
    ensures KeyEncrypted != KeyHasPassword && KeyEncrypted != KeyTimestamp && KeyEncrypted != KeyEssence
    ensures KeyHasPassword != KeyTimestamp && KeyHasPassword != KeyEssence && KeyTimestamp != KeyEssence
    ensures StardustName != AuroraName
  {
    assert KeyMessage[0] != KeyEncrypted[0];
    assert KeyEssence[1] != KeyEncrypted[1];
    assert KeyTimestamp[1] != KeyId[1];
  }

  /** Normalisation reads back every canonical record exactly, whatever its index and the clock. */
  lemma NormalizeToJs(r: Record, index: nat, now: int)
    requires Canonical(r)
    ensures NormalizeRecord(ToJs(r), index, now) == Some(r)
  {
    KeysDistinct();
    TrimOfTrimmed(r.message);
    var v := ToJs(r);
    assert GetProp(v, KeyId) == Str(r.id);
    assert GetProp(v, KeyMessage) == Str(r.message);
    assert GetProp(v, KeyHasPassword) == Bool(r.hasPassword);
    assert GetProp(v, KeyTimestamp) == Num(Finite(r.timestamp));
    assert GetProp(v, KeyEssence) == Str(EssenceName(r.essence));
    if r.encryptedMessage.Some? {
      assert GetProp(v, KeyEncrypted) == Str(r.encryptedMessage.value);
    } else {
      assert GetProp(v, KeyEncrypted) == Undefined;
    }
  }

  // ---------------------------------------------------------------------------
  // parseRecords
  // ---------------------------------------------------------------------------

  /** The ids of a record list. */
  function Ids(rs: seq<Record>): set<String> {
    set k | 0 <= k < |rs| :: rs[k].id
  }

  lemma IdsSnoc(rs: seq<Record>, x: Record)
    ensures Ids(rs + [x]) == Ids(rs) + {x.id}
  {
    var r := rs + [x];
    forall y | y in Ids(r) ensures y in Ids(rs) + {x.id} {
      var k :| 0 <= k < |r| && r[k].id == y;
      if k < |rs| {
        assert rs[k].id == y;
      }
    }
    forall y | y in Ids(rs) + {x.id} ensures y in Ids(r) {
      if y == x.id {
        assert r[|rs|].id == y;
      } else {
        var k :| 0 <= k < |rs| && rs[k].id == y;
        assert r[k].id == y;
      }
    }
  }

  lemma IdsCons(x: Record, rs: seq<Record>)
    ensures Ids([x] + rs) == {x.id} + Ids(rs)
  {
    var r := [x] + rs;
    forall y | y in Ids(r) ensures y in {x.id} + Ids(rs) {
      var k :| 0 <= k < |r| && r[k].id == y;
      if k > 0 {
        assert rs[k - 1].id == y;
      }
    }
    forall y | y in {x.id} + Ids(rs) ensures y in Ids(r) {
      if y == x.id {
        assert r[0].id == y;
      } else {
        var k :| 0 <= k < |rs| && rs[k].id == y;
        assert r[k + 1].id == y;
      }
    }
  }

  predicate DistinctIds(rs: seq<Record>) {
    forall i, j | 0 <= i < j < |rs| :: rs[i].id != rs[j].id
  }

  /** The first record with the given id, if any. */
  function FirstWithId(rs: seq<Record>, id: String): (r: Option<Record>)
    ensures r.None? <==> id !in Ids(rs)
    ensures r.Some? ==> r.value in rs && r.value.id == id
  {
    if |rs| == 0 then None
    else if rs[0].id == id then Some(rs[0])
    else
      var rest := FirstWithId(rs[1..], id);
      assert rs == [rs[0]] + rs[1..];
      IdsCons(rs[0], rs[1..]);
      rest
  }

  /** The items that normalise, in order, each normalised at its own index in the array. */
  function Survivors(items: seq<JsValue>, now: int): (rs: seq<Record>)
    ensures |rs| <= |items|
    ensures AllCanonical(rs)
    decreases |items|
  {
    if |items| == 0 then []
    else
      var n := |items| - 1;
      var prev := Survivors(items[..n], now);
      match NormalizeRecord(items[n], n, now)
      case None => prev
      case Some(r) => prev + [r]
  }

  /** The records in order, each dropped when an earlier one has its id. */
  function KeepFirst(rs: seq<Record>): (r: seq<Record>)
    ensures |r| <= |rs|
    ensures DistinctIds(r)
    ensures Ids(r) == Ids(rs)
    ensures forall k | 0 <= k < |r| :: r[k] in rs
    decreases |rs|
  {
    if |rs| == 0 then []
    else
      var n := |rs| - 1;
      var prev := KeepFirst(rs[..n]);
      assert rs == rs[..n] + [rs[n]];
      IdsSnoc(rs[..n], rs[n]);
      if rs[n].id in Ids(prev) then prev
      else
        var r := prev + [rs[n]];
        IdsSnoc(prev, rs[n]);
        forall k | 0 <= k < |prev| ensures prev[k].id != rs[n].id {
          assert prev[k].id in Ids(prev);
        }
        r
  }

  /** Every kept record is the first record of the input with its id. */
  lemma {:induction false} KeepFirstKeepsFirst(rs: seq<Record>)
    ensures forall k | 0 <= k < |KeepFirst(rs)| :: FirstWithId(rs, KeepFirst(rs)[k].id) == Some(KeepFirst(rs)[k])
    decreases |rs|
  {
    if |rs| > 0 {
      var n := |rs| - 1;
      KeepFirstKeepsFirst(rs[..n]);
      var prev := KeepFirst(rs[..n]);
      forall k | 0 <= k < |KeepFirst(rs)|
        ensures FirstWithId(rs, KeepFirst(rs)[k].id) == Some(KeepFirst(rs)[k])
      {
        var x := KeepFirst(rs)[k];
        FirstWithIdSnoc(rs[..n], rs[n], x.id);
        assert rs == rs[..n] + [rs[n]];
        if k < |prev| {
          assert x == prev[k];
        } else {
          assert x == rs[n] && rs[n].id !in Ids(prev);
        }
      }
    }
  }

  lemma {:induction false} FirstWithIdSnoc(rs: seq<Record>, x: Record, id: String)
    ensures FirstWithId(rs + [x], id) ==
      if FirstWithId(rs, id).Some? then FirstWithId(rs, id) else if x.id == id then Some(x) else None
    decreases |rs|
  {
    if |rs| > 0 {
      assert (rs + [x])[1..] == rs[1..] + [x];
      FirstWithIdSnoc(rs[1..], x, id);
    }
  }

  /** A list whose ids are already distinct keeps every record. */
  lemma {:induction false} KeepFirstOfDistinct(rs: seq<Record>)
    requires DistinctIds(rs)
    ensures KeepFirst(rs) == rs
    decreases |rs|
  {
    if |rs| > 0 {
      var n := |rs| - 1;
      KeepFirstOfDistinct(rs[..n]);
      assert rs[n].id !in Ids(rs[..n]);
      assert rs == rs[..n] + [rs[n]];
    }
  }

  /**
   * `parseRecords(rawData)`: the normalised items of a stored array with
   * duplicate ids removed; no array at all gives the empty list.
   */
  function ParseRecords(slot: Option<JsValue>, now: int): (rs: seq<Record>)
    ensures DistinctIds(rs) && AllCanonical(rs)
    ensures !(slot.Some? && slot.value.Arr?) ==> rs == []
    ensures slot.Some? && slot.value.Arr? ==> |rs| <= |slot.value.elems|
  {
    match slot
    case Some(Arr(items)) =>
      var r := KeepFirst(Survivors(items, now));
      assert forall k | 0 <= k < |r| :: Canonical(r[k]) by {
        forall k | 0 <= k < |r| ensures Canonical(r[k]) {
          var s := Survivors(items, now);
          assert r[k] in s;
        }
      }
      r
    case _ => []
  }

  /** The single pass of `parseRecords`, with the `Set` of ids seen so far. */
  method ParseRecordsLoop(slot: Option<JsValue>, now: int) returns (records: seq<Record>)
    ensures records == ParseRecords(slot, now)
  {
    records := [];
    if !(slot.Some? && slot.value.Arr?) {
      return;
    }
    var items := slot.value.elems;
    var unique: set<String> := {};
    for i := 0 to |items|
      invariant records == KeepFirst(Survivors(items[..i], now))
      invariant unique == Ids(records)
    {
      SurvivorsStep(items, i, now);
      var normalized := NormalizeRecord(items[i], i, now);
      if normalized.Some? {
        KeepFirstSnoc(Survivors(items[..i], now), normalized.value);
      }
      if normalized.Some? && normalized.value.id !in unique {
        IdsSnoc(records, normalized.value);
        unique := unique + {normalized.value.id};
        records := records + [normalized.value];
      }
    }
    assert items[..|items|] == items;
  }

  lemma SurvivorsStep(items: seq<JsValue>, i: nat, now: int)
    requires i < |items|
    ensures Survivors(items[..i + 1], now) ==
      match NormalizeRecord(items[i], i, now) case None => Survivors(items[..i], now) case Some(r) => Survivors(items[..i], now) + [r]
  {
    assert items[..i + 1][..i] == items[..i];
  }

  lemma KeepFirstSnoc(rs: seq<Record>, x: Record)
    ensures KeepFirst(rs + [x]) == if x.id in Ids(KeepFirst(rs)) then KeepFirst(rs) else KeepFirst(rs) + [x]
  {
    assert (rs + [x])[..|rs|] == rs;
  }

  lemma {:induction false} SurvivorsOfEncode(rs: seq<Record>, now: int)
    requires AllCanonical(rs)
    ensures Survivors(Encode(rs).elems, now) == rs
    decreases |rs|
  {
    if |rs| > 0 {
      var n := |rs| - 1;
      assert rs[..n] + [rs[n]] == rs;
      var items := Encode(rs).elems;
      assert items[..n] == Encode(rs[..n]).elems;
      SurvivorsOfEncode(rs[..n], now);
      NormalizeToJs(rs[n], n, now);
      assert NormalizeRecord(items[n], n, now) == Some(rs[n]);
    }
  }

  /** Writing a canonical list with distinct ids and reading it back gives the same list. */
  lemma ParseEncode(rs: seq<Record>, now: int)
    requires AllCanonical(rs) && DistinctIds(rs)
    ensures ParseRecords(Some(Encode(rs)), now) == rs
  {
    SurvivorsOfEncode(rs, now);
    KeepFirstOfDistinct(rs);
  }

  /** Reading is a normal form: writing what was read and reading again changes nothing. */
  lemma ParseRecordsStable(slot: Option<JsValue>, now: int, later: int)
    ensures ParseRecords(Some(Encode(ParseRecords(slot, now))), later) == ParseRecords(slot, now)
  {
    ParseEncode(ParseRecords(slot, now), later);
  }

  // ---------------------------------------------------------------------------
  // limitRecords: a stable sort, newest first, then the first 50
  // ---------------------------------------------------------------------------

  predicate SortedDesc(rs: seq<Record>) {
    forall i, j | 0 <= i < j < |rs| :: rs[i].timestamp >= rs[j].timestamp
  }

  /** Inserts before the first record that is not newer, so equal timestamps keep their order. */
  function InsertDesc(x: Record, rs: seq<Record>): (r: seq<Record>)
    ensures |r| == |rs| + 1
    ensures multiset(r) == multiset(rs) + multiset{x}
    ensures forall k | 0 <= k < |r| :: r[k] == x || r[k] in rs
    ensures (forall k | 0 <= k < |rs| :: x.timestamp >= rs[k].timestamp) ==> r == [x] + rs
  {
    if |rs| == 0 || x.timestamp >= rs[0].timestamp then [x] + rs
    else
      assert rs == [rs[0]] + rs[1..];
      [rs[0]] + InsertDesc(x, rs[1..])
  }

  lemma {:induction false} InsertSorted(x: Record, rs: seq<Record>)
    requires SortedDesc(rs)
    ensures SortedDesc(InsertDesc(x, rs))
    decreases |rs|
  {
    if |rs| > 0 && x.timestamp < rs[0].timestamp {
      InsertSorted(x, rs[1..]);
      var tail := InsertDesc(x, rs[1..]);
      forall j | 0 <= j < |tail| ensures rs[0].timestamp >= tail[j].timestamp {
        if tail[j] != x {
          var i :| 0 <= i < |rs[1..]| && rs[1..][i] == tail[j];
          assert rs[i + 1] == tail[j];
        }
      }
    }
  }

  /** `records.sort((a, b) => b.timestamp - a.timestamp)`: a stable sort, newest first. */
  function SortDesc(rs: seq<Record>): (r: seq<Record>)
    ensures |r| == |rs|
    ensures multiset(r) == multiset(rs)
    ensures SortedDesc(r)
  {
    if |rs| == 0 then [] else
      assert rs == [rs[0]] + rs[1..];
      InsertSorted(rs[0], SortDesc(rs[1..]));
      InsertDesc(rs[0], SortDesc(rs[1..]))
  }

  /** The records with a given timestamp, in order. */
  function WithTimestamp(rs: seq<Record>, t: int): seq<Record> {
    if |rs| == 0 then []
    else (if rs[0].timestamp == t then [rs[0]] else []) + WithTimestamp(rs[1..], t)
  }

  lemma {:induction false} WithTimestampInsert(x: Record, rs: seq<Record>, t: int)
    ensures WithTimestamp(InsertDesc(x, rs), t) == (if x.timestamp == t then [x] else []) + WithTimestamp(rs, t)
    decreases |rs|
  {
    if |rs| == 0 || x.timestamp >= rs[0].timestamp {
      WithTimestampCons(x, rs, t);
    } else {
      var tail := InsertDesc(x, rs[1..]);
      var head := if rs[0].timestamp == t then [rs[0]] else [];
      var mine := if x.timestamp == t then [x] else [];
      calc {
        WithTimestamp(InsertDesc(x, rs), t);
        { assert InsertDesc(x, rs) == [rs[0]] + tail; }
        WithTimestamp([rs[0]] + tail, t);
        { WithTimestampCons(rs[0], tail, t); }
        head + WithTimestamp(tail, t);
        { WithTimestampInsert(x, rs[1..], t); }
        head + (mine + WithTimestamp(rs[1..], t));
        // x is strictly older than rs[0], so at most one of them has timestamp t
        mine + (head + WithTimestamp(rs[1..], t));
        { WithTimestampCons(rs[0], rs[1..], t); assert [rs[0]] + rs[1..] == rs; }
        mine + WithTimestamp(rs, t);
      }
    }
  }

  lemma WithTimestampCons(x: Record, rs: seq<Record>, t: int)
    ensures WithTimestamp([x] + rs, t) == (if x.timestamp == t then [x] else []) + WithTimestamp(rs, t)
  {
    assert ([x] + rs)[1..] == rs;
  }

  /** The sort is stable: the records sharing a timestamp keep their relative order. */
  lemma {:induction false} SortStable(rs: seq<Record>, t: int)
    ensures WithTimestamp(SortDesc(rs), t) == WithTimestamp(rs, t)
    decreases |rs|
  {
    if |rs| > 0 {
      SortStable(rs[1..], t);
      WithTimestampInsert(rs[0], SortDesc(rs[1..]), t);
    }
  }

  /** An already sorted list is left as it is. */
  lemma {:induction false} SortSorted(rs: seq<Record>)
    requires SortedDesc(rs)
    ensures SortDesc(rs) == rs
    decreases |rs|
  {
    if |rs| > 0 {
      SortSorted(rs[1..]);
      assert rs == [rs[0]] + rs[1..];
    }
  }

  /** `limitRecords(records)`: the 50 newest, newest first. */
  function Limit(rs: seq<Record>): (r: seq<Record>)
    ensures |r| == if |rs| <= MaxRecords then |rs| else MaxRecords
    ensures SortedDesc(r)
    ensures multiset(r) <= multiset(rs)
    ensures r <= SortDesc(rs)
  {
    var s := SortDesc(rs);
    if |s| <= MaxRecords then s
    else
      assert s == s[..MaxRecords] + s[MaxRecords..];
      s[..MaxRecords]
  }

  /** Limiting twice is limiting once. */
  lemma LimitIdempotent(rs: seq<Record>)
    ensures Limit(Limit(rs)) == Limit(rs)
  {
    SortSorted(Limit(rs));
  }

  /** A record at least as new as every other one comes first after limiting. */
  lemma NewestFirst(x: Record, rs: seq<Record>)
    requires forall k | 0 <= k < |rs| :: x.timestamp >= rs[k].timestamp
    ensures Limit([x] + rs)[0] == x
  {
    var s := SortDesc(rs);
    assert ([x] + rs)[1..] == rs;
    forall k | 0 <= k < |s| ensures x.timestamp >= s[k].timestamp {
      assert s[k] in multiset(rs);
      assert s[k] in rs;
    }
  }

  /** Limiting keeps every record it keeps whole, and the kept ones are canonical when the input was. */
  lemma LimitCanonical(rs: seq<Record>)
    requires AllCanonical(rs) && DistinctIds(rs)
    ensures AllCanonical(Limit(rs)) && DistinctIds(Limit(rs))
  {
    var r := Limit(rs);
    forall k | 0 <= k < |r| ensures Canonical(r[k]) && r[k] in rs {
      assert r[k] in multiset(r);
      assert r[k] in multiset(rs);
    }
    forall i, j | 0 <= i < j < |r| ensures r[i].id != r[j].id {
      MultisetDistinct(rs, r, i, j);
    }
  }

  /** Two positions of a sub-multiset of a list with distinct ids hold different ids. */
  lemma MultisetDistinct(rs: seq<Record>, r: seq<Record>, i: nat, j: nat)
    requires DistinctIds(rs) && multiset(r) <= multiset(rs)
    requires i < j < |r|
    ensures r[i].id != r[j].id
  {
    assert r[i] in rs && r[j] in rs by {
      assert r[i] in multiset(r) && r[j] in multiset(r);
    }
    var a :| 0 <= a < |rs| && rs[a] == r[i];
    var b :| 0 <= b < |rs| && rs[b] == r[j];
    if r[i] == r[j] {
      assert r == r[..i] + [r[i]] + r[i + 1..j] + [r[j]] + r[j + 1..];
      assert multiset(r)[r[i]] >= 2;
      DistinctCountOne(rs, a);
    }
  }

  lemma DistinctCountOne(rs: seq<Record>, a: nat)
    requires DistinctIds(rs) && a < |rs|
    ensures multiset(rs)[rs[a]] == 1
  {
    assert rs == rs[..a] + [rs[a]] + rs[a + 1..];
    assert rs[a] !in rs[..a] by {
      forall k | 0 <= k < a ensures rs[k] != rs[a] {
        assert rs[k].id != rs[a].id;
      }
    }
    forall j | a + 1 <= j < |rs| ensures rs[j] != rs[a] {
      assert rs[j].id != rs[a].id;
    }
    assert rs[a] !in rs[a + 1..];
  }

  // ---------------------------------------------------------------------------
  // Presets
  // ---------------------------------------------------------------------------

  /**
   * `PRESET_WHISPERS`: 51 messages with their essences, in six runs.
   * The longer messages are written as two literals joined, which is the
   * same string.
   */
  const PresetWhispers: seq<(string, Essence)> :=
    WhispersA + WhispersB + WhispersC + WhispersD + WhispersE + WhispersF

  const WhispersA: seq<(string, Essence)> := [
      ("在我们第一次看到星星的地方见面", Aurora),
      ("Meet me where we first saw the stars", Stardust),
      ("时间冻结的瞬间，像掌心的雪花", Aurora),
      ("月光洒在你的发梢，我想留住这一刻", Stardust),
      ("Every snowflake is " + "a kiss from heaven", Aurora),
      ("你的笑容，是我见过最美的风景", Stardust),
      ("如果可以，我想把这一刻定格成永恒", Aurora),
      ("In your eyes, I found my universe", Stardust),
      ("世上没有两片相同的雪花，也没有两个相同的灵魂", Stardust)
    ]

  const WhispersB: seq<(string, Essence)> := [
      ("来自虚空的低语，在时间中结晶", Aurora),
      ("In the silence between " + "heartbeats, I found eternity", Stardust),
      ("所有的相遇都是久别重逢", Aurora),
      ("时间是最温柔的刀，雕刻着我们的故事", Stardust),
      ("We are all stardust, " + "temporarily gathered", Aurora),
      ("愿你的每一天都像雪花一样独特而美丽", Stardust),
      ("May your dreams " + "crystallize into reality", Aurora),
      ("在最寒冷的冬天，也要保持心中的温暖", Stardust),
      ("愿所有美好如期而至，愿所有温柔都被善待", Aurora)
    ]

  const WhispersC: seq<(string, Essence)> := [
      ("May the stars guide you home", Stardust),
      ("午夜的钟声响起时，我会在老地方等你", Aurora),
      ("The secret garden blooms " + "only for those who believe", Stardust),
      ("北极光下的誓言，永不褪色", Aurora),
      ("在星空下许下的愿望，总会实现", Stardust),
      ("Where the moonlight meets " + "the ocean, our story begins", Aurora),
      ("樱花落下的速度是每秒五厘米，我想你的速度是每秒一万次", Stardust),
      ("如果云知道，它会带走我所有的思念", Aurora),
      ("Between the pages of " + "time, I found your smile", Stardust)
    ]

  const WhispersD: seq<(string, Essence)> := [
      ("风吹过的地方，都是你的温柔", Aurora),
      ("The universe whispered " + "your name to me", Stardust),
      ("即使融化，也要绽放最美的光芒", Aurora),
      ("Every ending is a new " + "beginning in disguise", Stardust),
      ("黎明前的黑暗，是为了迎接更灿烂的光", Aurora),
      ("You are braver than you believe", Stardust),
      ("每一次跌倒，都是为了更好地站起来", Aurora),
      ("当第七颗星星升起时，秘密将被揭晓", Aurora)
    ]

  const WhispersE: seq<(string, Essence)> := [
      ("The key is hidden where the " + "moonlight touches the water", Stardust),
      ("三个字，藏在这片雪花的第七个分支里", Aurora),
      ("Follow the northern " + "lights to find the truth", Stardust),
      ("答案就在你最初的选择里", Aurora),
      ("2026.01.18 - 一切改变的那一天", Stardust),
      ("这是我们的第1000天，也是新的开始", Aurora),
      ("2026年的第一场雪，见证了我们的约定", Stardust),
      ("The day we met, the universe smiled", Aurora)
    ]

  const WhispersF: seq<(string, Essence)> := [
      ("春天的第一朵花，为你而开", Stardust),
      ("夏夜的萤火虫，带着我的思念飞向你", Aurora),
      ("秋天的落叶，写满了我想说的话", Stardust),
      ("冬日的暖阳，是你给我的温柔", Aurora),
      ("The ocean remembers every " + "wave, as I remember you", Stardust),
      ("你的名字，是我听过最美的旋律", Aurora),
      ("Life is a symphony, and " + "you are my favorite note", Stardust),
      ("在音乐停止的地方，我们的故事开始", Aurora)
    ]

  /** `preset_${index}`. */
  function PresetId(index: nat): String {
    PresetPrefix + Decimal(index)
  }

  /** `createPresetRecords()`: one record per preset, an hour apart, ending an hour before `now`. */
  function CreatePresets(now: int): (ps: seq<Record>)
    ensures |ps| == |PresetWhispers| == 51
    ensures forall k | 0 <= k < |ps| ::
      ps[k].id == PresetId(k) && !ps[k].hasPassword && ps[k].encryptedMessage.None? &&
      ps[k].timestamp == now - 51 * PresetSpacing + k * PresetSpacing &&
      ps[k].message == Lit(PresetWhispers[k].0) && ps[k].essence == PresetWhispers[k].1
  {
    var base := now - |PresetWhispers| * PresetSpacing;
    seq(|PresetWhispers|, k requires 0 <= k < |PresetWhispers| =>
      Record(PresetId(k), Lit(PresetWhispers[k].0), None, false, base + k * PresetSpacing, PresetWhispers[k].1))
  }

  /** Presets are in ascending timestamp order, one hour apart, and the last is one hour before `now`. */
  lemma PresetsAscending(now: int)
    ensures forall i, j | 0 <= i < j < 51 :: CreatePresets(now)[i].timestamp < CreatePresets(now)[j].timestamp
    ensures CreatePresets(now)[50].timestamp == now - PresetSpacing
  {
  }

  lemma PresetIdsDistinct(i: nat, j: nat)
    requires i != j
    ensures PresetId(i) != PresetId(j)
  {
    RadixRoundTrip(i, 10);
    RadixRoundTrip(j, 10);
    assert PresetId(i)[|PresetPrefix|..] == Decimal(i);
    assert PresetId(j)[|PresetPrefix|..] == Decimal(j);
  }

  /** No preset message is blank or has surrounding whitespace. */
  predicate NeatLiteral(s: string) {
    |s| > 0 && s[0] as int < 0x1_0000 && s[|s| - 1] as int < 0x1_0000 &&
    !IsWhite(s[0] as int) && !IsWhite(s[|s| - 1] as int)
  }

  lemma WhispersANeat()
    ensures forall k | 0 <= k < |WhispersA| :: NeatLiteral(WhispersA[k].0)
  {
    forall k | 0 <= k < |WhispersA| ensures NeatLiteral(WhispersA[k].0) {
      if k == 0 { assert NeatLiteral(WhispersA[0].0); }
      else if k == 1 { assert NeatLiteral(WhispersA[1].0); }
      else if k == 2 { assert NeatLiteral(WhispersA[2].0); }
      else if k == 3 { assert NeatLiteral(WhispersA[3].0); }
      else if k == 4 { assert NeatLiteral(WhispersA[4].0); }
      else if k == 5 { assert NeatLiteral(WhispersA[5].0); }
      else if k == 6 { assert NeatLiteral(WhispersA[6].0); }
      else if k == 7 { assert NeatLiteral(WhispersA[7].0); }
      else { assert k == 8; assert NeatLiteral(WhispersA[8].0); }
    }
  }

  lemma WhispersBNeat()
    ensures forall k | 0 <= k < |WhispersB| :: NeatLiteral(WhispersB[k].0)
  {
    forall k | 0 <= k < |WhispersB| ensures NeatLiteral(WhispersB[k].0) {
      if k == 0 { assert NeatLiteral(WhispersB[0].0); }
      else if k == 1 { assert NeatLiteral(WhispersB[1].0); }
      else if k == 2 { assert NeatLiteral(WhispersB[2].0); }
      else if k == 3 { assert NeatLiteral(WhispersB[3].0); }
      else if k == 4 { assert NeatLiteral(WhispersB[4].0); }
      else if k == 5 { assert NeatLiteral(WhispersB[5].0); }
      else if k == 6 { assert NeatLiteral(WhispersB[6].0); }
      else if k == 7 { assert NeatLiteral(WhispersB[7].0); }
      else { assert k == 8; assert NeatLiteral(WhispersB[8].0); }
    }
  }

  lemma WhispersCNeat()
    ensures forall k | 0 <= k < |WhispersC| :: NeatLiteral(WhispersC[k].0)
  {
    forall k | 0 <= k < |WhispersC| ensures NeatLiteral(WhispersC[k].0) {
      if k == 0 { assert NeatLiteral(WhispersC[0].0); }
      else if k == 1 { assert NeatLiteral(WhispersC[1].0); }
      else if k == 2 { assert NeatLiteral(WhispersC[2].0); }
      else if k == 3 { assert NeatLiteral(WhispersC[3].0); }
      else if k == 4 { assert NeatLiteral(WhispersC[4].0); }
      else if k == 5 { assert NeatLiteral(WhispersC[5].0); }
      else if k == 6 { assert NeatLiteral(WhispersC[6].0); }
      else if k == 7 { assert NeatLiteral(WhispersC[7].0); }
      else { assert k == 8; assert NeatLiteral(WhispersC[8].0); }
    }
  }

  lemma WhispersDNeat()
    ensures forall k | 0 <= k < |WhispersD| :: NeatLiteral(WhispersD[k].0)
  {
    forall k | 0 <= k < |WhispersD| ensures NeatLiteral(WhispersD[k].0) {
      if k == 0 { assert NeatLiteral(WhispersD[0].0); }
      else if k == 1 { assert NeatLiteral(WhispersD[1].0); }
      else if k == 2 { assert NeatLiteral(WhispersD[2].0); }
      else if k == 3 { assert NeatLiteral(WhispersD[3].0); }
      else if k == 4 { assert NeatLiteral(WhispersD[4].0); }
      else if k == 5 { assert NeatLiteral(WhispersD[5].0); }
      else if k == 6 { assert NeatLiteral(WhispersD[6].0); }
      else { assert k == 7; assert NeatLiteral(WhispersD[7].0); }
    }
  }

  lemma WhispersENeat()
    ensures forall k | 0 <= k < |WhispersE| :: NeatLiteral(WhispersE[k].0)
  {
    forall k | 0 <= k < |WhispersE| ensures NeatLiteral(WhispersE[k].0) {
      if k == 0 { assert NeatLiteral(WhispersE[0].0); }
      else if k == 1 { assert NeatLiteral(WhispersE[1].0); }
      else if k == 2 { assert NeatLiteral(WhispersE[2].0); }
      else if k == 3 { assert NeatLiteral(WhispersE[3].0); }
      else if k == 4 { assert NeatLiteral(WhispersE[4].0); }
      else if k == 5 { assert NeatLiteral(WhispersE[5].0); }
      else if k == 6 { assert NeatLiteral(WhispersE[6].0); }
      else { assert k == 7; assert NeatLiteral(WhispersE[7].0); }
    }
  }

  lemma WhispersFNeat()
    ensures forall k | 0 <= k < |WhispersF| :: NeatLiteral(WhispersF[k].0)
  {
    forall k | 0 <= k < |WhispersF| ensures NeatLiteral(WhispersF[k].0) {
      if k == 0 { assert NeatLiteral(WhispersF[0].0); }
      else if k == 1 { assert NeatLiteral(WhispersF[1].0); }
      else if k == 2 { assert NeatLiteral(WhispersF[2].0); }
      else if k == 3 { assert NeatLiteral(WhispersF[3].0); }
      else if k == 4 { assert NeatLiteral(WhispersF[4].0); }
      else if k == 5 { assert NeatLiteral(WhispersF[5].0); }
      else if k == 6 { assert NeatLiteral(WhispersF[6].0); }
      else { assert k == 7; assert NeatLiteral(WhispersF[7].0); }
    }
  }

  lemma PresetLiteralsNeat()
    ensures forall k | 0 <= k < |PresetWhispers| :: NeatLiteral(PresetWhispers[k].0)
  {
    WhispersANeat();
    WhispersBNeat();
    WhispersCNeat();
    WhispersDNeat();
    WhispersENeat();
    WhispersFNeat();
    forall k | 0 <= k < |PresetWhispers| ensures NeatLiteral(PresetWhispers[k].0) {
      if k < 9 {
        assert PresetWhispers[k] == WhispersA[k];
      } else if k < 18 {
        assert PresetWhispers[k] == WhispersB[k - 9];
      } else if k < 27 {
        assert PresetWhispers[k] == WhispersC[k - 18];
      } else if k < 35 {
        assert PresetWhispers[k] == WhispersD[k - 27];
      } else if k < 43 {
        assert PresetWhispers[k] == WhispersE[k - 35];
      } else {
        assert PresetWhispers[k] == WhispersF[k - 43];
      }
    }
  }

  /** Every preset record is canonical and their ids are distinct, so they survive a write and a read. */
  lemma PresetsCanonical(now: int)
    ensures AllCanonical(CreatePresets(now)) && DistinctIds(CreatePresets(now))
  {
    PresetsAllCanonical(now);
    PresetIdsAllDistinct(now);
  }

  lemma PresetsAllCanonical(now: int)
    ensures AllCanonical(CreatePresets(now))
  {
    var ps := CreatePresets(now);
    forall k | 0 <= k < |ps| ensures Canonical(ps[k]) {
      PresetCanonical(now, k);
    }
  }

  lemma PresetCanonical(now: int, k: nat)
    requires k < |PresetWhispers|
    ensures Canonical(CreatePresets(now)[k])
  {
    PresetLiteralsNeat();
    NeatLiteralTrimmed(PresetWhispers[k].0);
  }

  lemma NeatLiteralTrimmed(s: string)
    requires NeatLiteral(s)
    ensures Lit(s) != [] && IsTrimmed(Lit(s))
  {
    LitEdges(s);
  }

  lemma PresetIdsAllDistinct(now: int)
    ensures DistinctIds(CreatePresets(now))
  {
    var ps := CreatePresets(now);
    forall i, j | 0 <= i < j < |ps| ensures ps[i].id != ps[j].id {
      PresetIdsDistinct(i, j);
    }
  }

  /** Whether some id starts with `preset_`. */
  predicate HasPreset(rs: seq<Record>) {
    exists k | 0 <= k < |rs| :: StartsWith(rs[k].id, PresetPrefix)
  }

  // ---------------------------------------------------------------------------
  // The operations on the slot
  // ---------------------------------------------------------------------------

  type Slot = Option<JsValue>

  /**
   * `getSnowflakes()`: the stored records limited to 50; an empty store
   * (nothing readable) is seeded with all the presets, which are returned
   * unlimited.
   */
  function GetSnowflakes(slot: Slot, now: int): (r: (Slot, seq<Record>))
    ensures ParseRecords(slot, now) != [] ==> r.0 == slot && r.1 == Limit(ParseRecords(slot, now))
    ensures ParseRecords(slot, now) == [] ==> r.0 == Some(Encode(CreatePresets(now))) && r.1 == CreatePresets(now)
    ensures AllCanonical(r.1) && DistinctIds(r.1)
  {
    var records := ParseRecords(slot, now);
    if |records| > 0 then
      LimitCanonical(records);
      (slot, Limit(records))
    else
      var presets := CreatePresets(now);
      PresetsCanonical(now);
      (Some(Encode(presets)), presets)
  }

  /**
   * `getSnowflakeCount()`: the number of records `getSnowflakes` returns,
   * together with the slot it leaves behind (an empty store is seeded with
   * the presets as a side effect).
   */
  function GetSnowflakeCount(slot: Slot, now: int): (r: (Slot, nat))
    ensures ParseRecords(slot, now) == [] ==> r.0 == Some(Encode(CreatePresets(now))) && r.1 == |PresetWhispers|
    ensures ParseRecords(slot, now) != [] ==> r.0 == slot
    ensures ParseRecords(slot, now) != [] ==> r.1 == if |ParseRecords(slot, now)| <= MaxRecords then |ParseRecords(slot, now)| else MaxRecords
  {
    var (written, records) := GetSnowflakes(slot, now);
    (written, |records|)
  }

  /** Whether `saveSnowflake` stores the ciphertext: `hasPassword && Boolean(encryptedMessage)`. */
  predicate PasswordEnabled(encrypted: Option<String>, hasPassword: bool) {
    hasPassword && encrypted.Some? && encrypted.value != []
  }

  /** The record `saveSnowflake` creates. */
  function NewRecord(message: String, essence: Essence, encrypted: Option<String>, hasPassword: bool,
                     now: int, suffix: String): (r: Record)
    requires Trim(message) != [] || PasswordEnabled(encrypted, hasPassword)
    ensures Canonical(r)
    ensures r.hasPassword == PasswordEnabled(encrypted, hasPassword)
    ensures r.hasPassword ==> r.message == EncryptedPlaceholder && r.encryptedMessage == encrypted
    ensures !r.hasPassword ==> r.message == Trim(message) && r.encryptedMessage.None?
    ensures r.timestamp == now && r.essence == essence
    ensures StartsWith(r.id, UserPrefix)
  {
    var enabled := PasswordEnabled(encrypted, hasPassword);
    PlaceholderCanonical();
    Record(UserPrefix + Decimal(now) + [Underscore] + suffix,
      if enabled then EncryptedPlaceholder else Trim(message),
      if enabled then encrypted else None,
      enabled, now, essence)
  }

  /**
   * `saveSnowflake(message, essence, encryptedMessage, hasPassword)`: `None`
   * and no write for a blank message without a usable password; otherwise
   * the new record, put in front of the current records and limited.
   */
  function SaveSnowflake(slot: Slot, message: String, essence: Essence, encrypted: Option<String>, hasPassword: bool,
                         now: int, suffix: String): (r: (Slot, Option<Record>))
    ensures r.1.None? <==> Trim(message) == [] && !PasswordEnabled(encrypted, hasPassword)
    ensures r.1.None? ==> r.0 == slot
    ensures r.1.Some? ==> r.1.value == NewRecord(message, essence, encrypted, hasPassword, now, suffix)
    ensures r.1.Some? ==> r.0 == Some(Encode(Limit([r.1.value] + GetSnowflakes(slot, now).1)))
  {
    if Trim(message) == [] && !PasswordEnabled(encrypted, hasPassword) then (slot, None)
    else
      var records := GetSnowflakes(slot, now).1;
      var record := NewRecord(message, essence, encrypted, hasPassword, now, suffix);
      (Some(Encode(Limit([record] + records))), Some(record))
  }

  /** `saveSnowflake` stores at most 50 records, and the new one first when no current record is newer. */
  lemma SaveKeepsNewest(slot: Slot, message: String, essence: Essence, encrypted: Option<String>, hasPassword: bool,
                        now: int, suffix: String)
    requires Trim(message) != [] || PasswordEnabled(encrypted, hasPassword)
    requires forall k | 0 <= k < |GetSnowflakes(slot, now).1| :: GetSnowflakes(slot, now).1[k].timestamp <= now
    ensures var (s, r) := SaveSnowflake(slot, message, essence, encrypted, hasPassword, now, suffix);
      s.Some? && s.value.Arr? && |s.value.elems| <= MaxRecords && s.value.elems[0] == ToJs(r.value)
  {
    var records := GetSnowflakes(slot, now).1;
    var record := NewRecord(message, essence, encrypted, hasPassword, now, suffix);
    NewestFirst(record, records);
  }

  /** What a save writes reads back as the limited list, when the new id is not already taken. */
  lemma SaveReadsBack(slot: Slot, message: String, essence: Essence, encrypted: Option<String>, hasPassword: bool,
                      now: int, suffix: String, later: int)
    requires Trim(message) != [] || PasswordEnabled(encrypted, hasPassword)
    requires NewRecord(message, essence, encrypted, hasPassword, now, suffix).id !in Ids(GetSnowflakes(slot, now).1)
    ensures var (s, r) := SaveSnowflake(slot, message, essence, encrypted, hasPassword, now, suffix);
      ParseRecords(s, later) == Limit([r.value] + GetSnowflakes(slot, now).1)
  {
    var records := GetSnowflakes(slot, now).1;
    var record := NewRecord(message, essence, encrypted, hasPassword, now, suffix);
    LimitReadsBack(record, records, later);
  }

  lemma LimitReadsBack(x: Record, rs: seq<Record>, later: int)
    requires Canonical(x) && AllCanonical(rs) && DistinctIds(rs) && x.id !in Ids(rs)
    ensures ParseRecords(Some(Encode(Limit([x] + rs))), later) == Limit([x] + rs)
  {
    var all := [x] + rs;
    assert AllCanonical(all);
    DistinctCons(x, rs);
    LimitCanonical(all);
    ParseEncode(Limit(all), later);
  }

  /** A record whose id is new can go in front of a list with distinct ids. */
  lemma DistinctCons(x: Record, rs: seq<Record>)
    requires DistinctIds(rs) && x.id !in Ids(rs)
    ensures DistinctIds([x] + rs)
  {
    var all := [x] + rs;
    forall i, j | 0 <= i < j < |all| ensures all[i].id != all[j].id {
      if i == 0 {
        assert all[j].id in Ids(rs) by {
          assert rs[j - 1] == all[j];
        }
      } else {
        assert rs[i - 1] == all[i] && rs[j - 1] == all[j];
      }
    }
  }

  /** The records other than those with the given id, in order. */
  function RemoveId(rs: seq<Record>, id: String): (r: seq<Record>)
    ensures |r| <= |rs|
    ensures forall k | 0 <= k < |r| :: r[k].id != id && r[k] in rs
    ensures id !in Ids(rs) ==> r == rs
    ensures Ids(r) == Ids(rs) - {id}
  {
    if |rs| == 0 then []
    else
      var tail := RemoveId(rs[1..], id);
      assert rs == [rs[0]] + rs[1..];
      IdsCons(rs[0], rs[1..]);
      if rs[0].id == id then tail
      else
        var r := [rs[0]] + tail;
        IdsCons(rs[0], tail);
        assert rs == [rs[0]] + rs[1..];
        r
  }

  /** Removing an id works record by record: it distributes over concatenation. */
  lemma {:induction false} RemoveIdAppend(a: seq<Record>, b: seq<Record>, id: String)
    ensures RemoveId(a + b, id) == RemoveId(a, id) + RemoveId(b, id)
  {
    if |a| > 0 {
      assert (a + b)[1..] == a[1..] + b;
      RemoveIdAppend(a[1..], b, id);
    } else {
      assert a + b == b;
    }
  }

  /** A single record is dropped exactly when it carries the id. */
  lemma RemoveIdSingleton(rec: Record, id: String)
    ensures RemoveId([rec], id) == if rec.id == id then [] else [rec]
  {
  }

  /** `deleteSnowflake(id)`: nothing for the empty id; otherwise the current records without that id are written. */
  function DeleteSnowflake(slot: Slot, id: String, now: int): (r: Slot)
    ensures id == [] ==> r == slot
    ensures id != [] ==> r == Some(Encode(RemoveId(GetSnowflakes(slot, now).1, id)))
  {
    if id == [] then slot
    else Some(Encode(RemoveId(GetSnowflakes(slot, now).1, id)))
  }

  /** After a delete the id is gone and every other current record reads back, in order. */
  lemma DeleteReadsBack(slot: Slot, id: String, now: int, later: int)
    requires id != []
    ensures ParseRecords(DeleteSnowflake(slot, id, now), later) == RemoveId(GetSnowflakes(slot, now).1, id)
    ensures id !in Ids(ParseRecords(DeleteSnowflake(slot, id, now), later))
  {
    var records := GetSnowflakes(slot, now).1;
    var r := RemoveId(records, id);
    RemoveIdCanonical(records, id);
    RemoveIdDistinct(records, id);
    ParseEncode(r, later);
  }

  lemma RemoveIdCanonical(rs: seq<Record>, id: String)
    requires AllCanonical(rs)
    ensures AllCanonical(RemoveId(rs, id))
  {
    var r := RemoveId(rs, id);
    forall k | 0 <= k < |r| ensures Canonical(r[k]) {
      assert r[k] in rs;
    }
  }

  lemma {:induction false} RemoveIdDistinct(rs: seq<Record>, id: String)
    requires DistinctIds(rs)
    ensures DistinctIds(RemoveId(rs, id))
  {
    if |rs| > 0 {
      RemoveIdDistinct(rs[1..], id);
      var tail := RemoveId(rs[1..], id);
      if rs[0].id != id {
        assert rs[0].id !in Ids(rs[1..]) by {
          forall j | 0 <= j < |rs| - 1 ensures rs[1..][j].id != rs[0].id {
            assert rs[1..][j] == rs[j + 1];
          }
        }
        DistinctCons(rs[0], tail);
      }
    }
  }

  /** `clearSnowflakes()` and `resetPresets()`: the slot is emptied. */
  function ClearSnowflakes(slot: Slot): (r: Slot)
    ensures forall now :: ParseRecords(r, now) == []
  {
    None
  }

  /** After clearing, the next read seeds the presets again. */
  lemma ClearThenGet(slot: Slot, now: int)
    ensures GetSnowflakes(ClearSnowflakes(slot), now).1 == CreatePresets(now)
  {
  }

  /**
   * `forceLoadPresets()`: when no current record is a preset, the presets
   * and the current records are merged and limited; otherwise only the read
   * of `getSnowflakes` happens.
   */
  function ForceLoadPresets(slot: Slot, now: int): (r: Slot)
    ensures HasPreset(GetSnowflakes(slot, now).1) ==> r == GetSnowflakes(slot, now).0
    ensures !HasPreset(GetSnowflakes(slot, now).1) ==>
      r == Some(Encode(Limit(CreatePresets(now) + GetSnowflakes(slot, now).1)))
  {
    var (written, existing) := GetSnowflakes(slot, now);
    if HasPreset(existing) then written
    else Some(Encode(Limit(CreatePresets(now) + existing)))
  }

  /** Forcing presets into a store that already shows one writes nothing beyond the read. */
  lemma ForceLoadOnStoredPresets(slot: Slot, now: int)
    requires ParseRecords(slot, now) != [] && HasPreset(Limit(ParseRecords(slot, now)))
    ensures ForceLoadPresets(slot, now) == slot
  {
  }

  // ---------------------------------------------------------------------------
  // The preset count exceeds the cap
  // ---------------------------------------------------------------------------

  /** On an empty store the first read returns and writes all 51 presets; the next read returns 50. */
  lemma GetSnowflakesNotIdempotent(now: int, later: int)
    ensures |GetSnowflakes(None, now).1| == 51
    ensures |GetSnowflakes(GetSnowflakes(None, now).0, later).1| == MaxRecords
  {
    PresetsCanonical(now);
    ParseEncode(CreatePresets(now), later);
  }

  /** `getSnowflakes` with the cap applied to the seeded presets as well. */
  function GetSnowflakesCapped(slot: Slot, now: int): (r: (Slot, seq<Record>))
    ensures |r.1| <= MaxRecords && SortedDesc(r.1)
    ensures ParseRecords(slot, now) != [] ==> r == GetSnowflakes(slot, now)
    ensures ParseRecords(slot, now) == [] ==> r.1 == Limit(CreatePresets(now)) && r.0 == Some(Encode(r.1))
  {
    var records := ParseRecords(slot, now);
    if |records| > 0 then GetSnowflakes(slot, now)
    else
      var presets := Limit(CreatePresets(now));
      (Some(Encode(presets)), presets)
  }

  /** With the cap applied to the presets as well, the read after seeding an empty store returns what the seeding read did. */
  lemma GetSnowflakesCappedIdempotent(slot: Slot, now: int, later: int)
    requires ParseRecords(slot, now) == []
    ensures GetSnowflakesCapped(GetSnowflakesCapped(slot, now).0, later).1 == GetSnowflakesCapped(slot, now).1
  {
    var shown := GetSnowflakesCapped(slot, now).1;
    PresetsCanonical(now);
    LimitCanonical(CreatePresets(now));
    ParseEncode(shown, later);
    LimitIdempotent(CreatePresets(now));
  }
}
