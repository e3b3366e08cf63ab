/**
 * The stored form of a page and the conversions to and from it: encoding is
 * what dataclasses.asdict followed by json.dump produce (integer keys become
 * decimal strings, a status becomes its name); decoding is Page.from_dict and
 * Comment.from_dict applied to what json.load returns.
 */
module Codec {
  import opened Wrappers
  import opened Records

  datatype CommentRecord = CommentRecord(createdAt: string, content: string)

  datatype TaskRecord = TaskRecord(
    id: int,
    status: string,
    content: string,
    commentList: seq<CommentRecord>,
    createdAt: string,
    lastModified: string)

  /** A member of the stored task_map object: its key is a string, as in any JSON object. */
  datatype RawEntry = RawEntry(key: string, record: TaskRecord)

  datatype PageRecord = PageRecord(id: int, createdAt: string, lastModified: string, taskMap: seq<RawEntry>)

  /** The two ValueErrors decoding can raise: int(k) on a key, and Status(v) on a status. */
  datatype DecodeError = BadKey(key: string) | BadStatus(status: string)

  // ---------------------------------------------------------------- statuses

  /** The string value of each Status member. */
  function StatusName(s: Status): string {
    match s
    case TODO => "TODO"
    case STAGED => "STAGED"
    case PUSHED => "PUSHED"
  }

  /** Status(name): the member whose value is name; any other string is rejected, never defaulted. */
  function ParseStatus(name: string): (r: Option<Status>)
    ensures r.Some? <==> name == "TODO" || name == "STAGED" || name == "PUSHED"
    ensures r.Some? ==> StatusName(r.value) == name
  {
    if name == "TODO" then Some(TODO)
    else if name == "STAGED" then Some(STAGED)
    else if name == "PUSHED" then Some(PUSHED)
    else None
  }

  lemma StatusRoundTrip(s: Status)
    ensures ParseStatus(StatusName(s)) == Some(s)
  {
  }

  // ---------------------------------------------------------------- integers

  predicate IsDigit(c: char) {
    '0' <= c <= '9'
  }

  predicate AllDigits(s: string) {
    forall i :: 0 <= i < |s| ==> IsDigit(s[i])
  }

  function DigitChar(d: nat): (c: char)
    requires d < 10
    ensures IsDigit(c)
  {
    ((d + '0' as int) as char)
  }

  function DigitValue(c: char): (d: nat)
    requires IsDigit(c)
    ensures d < 10 && DigitChar(d) == c
  {
    (c as int) - ('0' as int)
  }

  /** The decimal digits of n, most significant first, without leading zeros. */
  function NatToString(n: nat): (s: string)
    ensures |s| > 0 && AllDigits(s)
    ensures |s| > 1 ==> s[0] != '0'
  {
    if n < 10 then [DigitChar(n)]
    else NatToString(n / 10) + [DigitChar(n % 10)]
  }

  /** str(i) for an integer: how json.dump writes an integer dictionary key. */
  function IntToString(i: int): string {
    if i < 0 then "-" + NatToString(-i) else NatToString(i)
  }

  /** The value of a non-empty string of decimal digits. */
  function ParseDigits(s: string): Option<nat> {
    if |s| == 0 then None
    else if !IsDigit(s[|s| - 1]) then None
    else if |s| == 1 then Some(DigitValue(s[0]))
    else
      match ParseDigits(s[..|s| - 1])
      case None => None
      case Some(v) => Some(10 * v + DigitValue(s[|s| - 1]))
  }

  /** int(s): an optional sign followed by decimal digits; anything else is rejected. */
  function ParseInt(s: string): Option<int> {
    if |s| > 0 && s[0] == '-' then
      match ParseDigits(s[1..])
      case None => None
      case Some(v) => Some(-(v as int))
    else if |s| > 0 && s[0] == '+' then
      match ParseDigits(s[1..])
      case None => None
      case Some(v) => Some(v)
    else
      match ParseDigits(s)
      case None => None
      case Some(v) => Some(v)
  }

  /** A string of digits parses exactly when it is non-empty and has no other character. */
  lemma {:induction false} ParseDigitsSome(s: string)
    ensures ParseDigits(s).Some? <==> |s| > 0 && AllDigits(s)
    decreases |s|
  {
    if |s| > 1 && IsDigit(s[|s| - 1]) {
      var p := s[..|s| - 1];
      ParseDigitsSome(p);
      assert AllDigits(s) <==> AllDigits(p) by {
        assert forall i :: 0 <= i < |p| ==> p[i] == s[i];
      }
    }
  }

  /** int(s) accepts exactly an optional sign followed by at least one digit. */
  lemma ParseIntSome(s: string)
    ensures ParseInt(s).Some? <==>
      if |s| > 0 && (s[0] == '-' || s[0] == '+') then |s| > 1 && AllDigits(s[1..]) else |s| > 0 && AllDigits(s)
  {
    if |s| > 0 && (s[0] == '-' || s[0] == '+') {
      ParseDigitsSome(s[1..]);
    } else {
      ParseDigitsSome(s);
    }
  }

  lemma {:induction false} NatRoundTrip(n: nat)
    ensures ParseDigits(NatToString(n)) == Some(n)
  {
    if n >= 10 {
      var s := NatToString(n);
      assert s[..|s| - 1] == NatToString(n / 10);
      NatRoundTrip(n / 10);
    }
  }

  /** A key written by json.dump reads back, through int(k), as the key it was. */
  lemma IntRoundTrip(i: int)
    ensures ParseInt(IntToString(i)) == Some(i)
  {
    var s := IntToString(i);
    if i < 0 {
      var d := NatToString(-i);
      assert s == "-" + d;
      assert s[0] == '-' && s[1..] == d;
      NatRoundTrip(-i);
      assert ParseDigits(s[1..]) == Some(-i);
    } else {
      var d := NatToString(i);
      assert s == d && IsDigit(d[0]);
      NatRoundTrip(i);
    }
  }

  /** Distinct integer keys are written as distinct strings. */
  lemma IntToStringInjective(a: int, b: int)
    requires a != b
    ensures IntToString(a) != IntToString(b)
  {
    IntRoundTrip(a);
    IntRoundTrip(b);
  }

  // ---------------------------------------------------------------- decoding

  /** Comment.from_dict */
  function DecodeComment(c: CommentRecord): Comment {
    Comment(c.createdAt, c.content)
  }

  function DecodeComments(cs: seq<CommentRecord>): seq<Comment> {
    seq(|cs|, i requires 0 <= i < |cs| => DecodeComment(cs[i]))
  }

  /** The Task that Page.from_dict builds for key k: its id is k, whatever id was stored. */
  function DecodeTask(k: int, s: Status, v: TaskRecord): Task {
    Task(k, s, v.content, DecodeComments(v.commentList), v.createdAt, v.lastModified)
  }

  /** The error, if any, that one member of the stored task_map raises: the key is converted before the status. */
  function EntryError(e: RawEntry): Option<DecodeError> {
    if ParseInt(e.key).None? then Some(BadKey(e.key))
    else if ParseStatus(e.record.status).None? then Some(BadStatus(e.record.status))
    else None
  }

  /**
   * The dict comprehension of Page.from_dict, over the stored members in
   * order: each is added with task_map[int(k)] = Task(...), so two keys that
   * name the same integer leave one entry, in the first one's place, holding
   * the later one's task. The first member that cannot be converted aborts.
   */
  function DecodeEntries(raw: seq<RawEntry>): Result<TaskMap, DecodeError>
    decreases |raw|
  {
    if raw == [] then Success([])
    else Absorb(DecodeEntries(raw[..|raw| - 1]), raw[|raw| - 1])
  }

  /** One step of the comprehension: member e is stored into the map built so far, unless an error came first. */
  function Absorb(acc: Result<TaskMap, DecodeError>, e: RawEntry): Result<TaskMap, DecodeError> {
    match acc
    case Failure(err) => Failure(err)
    case Success(m) =>
      match ParseInt(e.key)
      case None => Failure(BadKey(e.key))
      case Some(k) =>
        match ParseStatus(e.record.status)
        case None => Failure(BadStatus(e.record.status))
        case Some(s) => Success(Put(m, k, DecodeTask(k, s, e.record)))
  }

  /** A step of the comprehension does not read the stored id. */
  lemma AbsorbIgnoresId(acc: Result<TaskMap, DecodeError>, x: RawEntry, y: RawEntry)
    requires x.key == y.key && x.record.(id := 0) == y.record.(id := 0)
    ensures Absorb(acc, x) == Absorb(acc, y)
  {
    assert x.record.status == y.record.status && x.record.content == y.record.content;
    assert x.record.commentList == y.record.commentList;
    assert x.record.createdAt == y.record.createdAt && x.record.lastModified == y.record.lastModified;
  }

  /** A decoded task_map is a dictionary whose every task carries its key as id. */
  lemma {:induction false} DecodeWellKeyed(raw: seq<RawEntry>)
    requires DecodeEntries(raw).Success?
    ensures WellKeyed(DecodeEntries(raw).value)
    decreases |raw|
  {
    if raw != [] {
      var init, last := raw[..|raw| - 1], raw[|raw| - 1];
      DecodeLast(raw);
      DecodeWellKeyed(init);
      var k, s := ParseInt(last.key).value, ParseStatus(last.record.status).value;
      PutShape(DecodeEntries(init).value, k, DecodeTask(k, s, last.record));
    }
  }

  /** Decoding one more stored member adds its task under its integer key. */
  lemma DecodeSnoc(raw: seq<RawEntry>, e: RawEntry, m: TaskMap, k: int, s: Status)
    requires DecodeEntries(raw) == Success(m)
    requires ParseInt(e.key) == Some(k) && ParseStatus(e.record.status) == Some(s)
    ensures DecodeEntries(raw + [e]) == Success(Put(m, k, DecodeTask(k, s, e.record)))
  {
    assert (raw + [e])[..|raw|] == raw;
  }

  /** No stored member has a key that is not an integer or a status that is not a Status value. */
  predicate Clean(raw: seq<RawEntry>) {
    forall i :: 0 <= i < |raw| ==> EntryError(raw[i]).None?
  }

  /** A non-empty sequence of members is clean when its prefix and its last member are. */
  lemma CleanLast(raw: seq<RawEntry>)
    requires raw != []
    ensures Clean(raw) <==> Clean(raw[..|raw| - 1]) && EntryError(raw[|raw| - 1]).None?
  {
    var init := raw[..|raw| - 1];
    assert forall i :: 0 <= i < |init| ==> init[i] == raw[i];
  }

  /** Decoding succeeds exactly when no stored member has a bad key or status. */
  lemma {:induction false} DecodeSucceedsIff(raw: seq<RawEntry>)
    ensures DecodeEntries(raw).Success? <==> Clean(raw)
    decreases |raw|
  {
    if raw != [] {
      DecodeSucceedsIff(raw[..|raw| - 1]);
      DecodeErrorStep(raw);
      CleanLast(raw);
    }
  }

  /** A failed decode reports the error of the first bad member; the lemma returns its position. */
  lemma {:induction false} DecodeFirstError(raw: seq<RawEntry>) returns (i: nat)
    requires DecodeEntries(raw).Failure?
    ensures i < |raw| && EntryError(raw[i]) == Some(DecodeEntries(raw).error)
    ensures forall j :: 0 <= j < i ==> EntryError(raw[j]).None?
    decreases |raw|
  {
    var init, last := raw[..|raw| - 1], raw[|raw| - 1];
    DecodeErrorStep(raw);
    if DecodeEntries(init).Failure? {
      i := DecodeFirstError(init);
      FirstErrorExtends(raw, init, i);
    } else {
      i := |raw| - 1;
      DecodeSucceedsIff(init);
      CleanLast(raw);
      assert forall j :: 0 <= j < i ==> raw[j] == init[j];
    }
  }

  /** A first bad member of the prefix is a first bad member of the whole. */
  lemma FirstErrorExtends(raw: seq<RawEntry>, init: seq<RawEntry>, i: nat)
    requires raw != [] && init == raw[..|raw| - 1] && i < |init|
    requires forall j :: 0 <= j < i ==> EntryError(init[j]).None?
    ensures forall j :: 0 <= j < i ==> EntryError(raw[j]).None?
    ensures init[i] == raw[i]
  {
    forall j | 0 <= j < i ensures EntryError(raw[j]).None? {
      assert raw[j] == init[j];
    }
  }

  /** One step of the fold: the prefix's error comes first, then the last member's own error. */
  lemma DecodeErrorStep(raw: seq<RawEntry>)
    requires raw != []
    ensures DecodeEntries(raw[..|raw| - 1]).Failure? ==>
      DecodeEntries(raw) == Failure(DecodeEntries(raw[..|raw| - 1]).error)
    ensures DecodeEntries(raw[..|raw| - 1]).Success? && EntryError(raw[|raw| - 1]).Some? ==>
      DecodeEntries(raw) == Failure(EntryError(raw[|raw| - 1]).value)
    ensures DecodeEntries(raw[..|raw| - 1]).Success? && EntryError(raw[|raw| - 1]).None? ==>
      DecodeEntries(raw).Success?
  {
    AbsorbErrors(DecodeEntries(raw[..|raw| - 1]), raw[|raw| - 1]);
  }

  /** A step of the comprehension keeps an earlier error, raises the member's own error, or succeeds. */
  lemma AbsorbErrors(acc: Result<TaskMap, DecodeError>, e: RawEntry)
    ensures acc.Failure? ==> Absorb(acc, e) == Failure(acc.error)
    ensures acc.Success? && EntryError(e).Some? ==> Absorb(acc, e) == Failure(EntryError(e).value)
    ensures acc.Success? && EntryError(e).None? ==> Absorb(acc, e).Success?
  {
  }

  /**
   * A successful decode of a non-empty sequence of members decoded its prefix
   * and parsed its last member, which it then stored by task_map[int(k)] = Task(...).
   */
  lemma DecodeLast(raw: seq<RawEntry>)
    requires raw != [] && DecodeEntries(raw).Success?
    ensures DecodeEntries(raw[..|raw| - 1]).Success?
    ensures ParseInt(raw[|raw| - 1].key).Some? && ParseStatus(raw[|raw| - 1].record.status).Some?
    ensures var last := raw[|raw| - 1];
      var k, s := ParseInt(last.key).value, ParseStatus(last.record.status).value;
      DecodeEntries(raw).value == Put(DecodeEntries(raw[..|raw| - 1]).value, k, DecodeTask(k, s, last.record))
  {
  }

  /** The integers that the stored keys name. */
  function StoredKeys(raw: seq<RawEntry>): set<int> {
    set i | 0 <= i < |raw| && ParseInt(raw[i].key).Some? :: ParseInt(raw[i].key).value
  }

  /** The last stored member adds the integer its key names, if it names one. */
  lemma StoredKeysLast(raw: seq<RawEntry>)
    requires raw != []
    ensures var init, last := raw[..|raw| - 1], raw[|raw| - 1];
      StoredKeys(raw) == StoredKeys(init) + (if ParseInt(last.key).Some? then {ParseInt(last.key).value} else {})
  {
    var init, last := raw[..|raw| - 1], raw[|raw| - 1];
    forall x | x in StoredKeys(init) ensures x in StoredKeys(raw) {
      var i :| 0 <= i < |init| && ParseInt(init[i].key).Some? && ParseInt(init[i].key).value == x;
      assert raw[i] == init[i];
    }
    forall x | x in StoredKeys(raw) ensures x in StoredKeys(init) || ParseInt(last.key) == Some(x) {
      var i :| 0 <= i < |raw| && ParseInt(raw[i].key).Some? && ParseInt(raw[i].key).value == x;
      if i < |init| { assert raw[i] == init[i]; }
    }
  }

  /** The decoded keys are exactly the integers the stored keys name. */
  lemma {:induction false} DecodeKeys(raw: seq<RawEntry>)
    requires DecodeEntries(raw).Success?
    ensures Keys(DecodeEntries(raw).value) == StoredKeys(raw)
    decreases |raw|
  {
    if raw != [] {
      var init, last := raw[..|raw| - 1], raw[|raw| - 1];
      DecodeLast(raw);
      var k, s := ParseInt(last.key).value, ParseStatus(last.record.status).value;
      var m := DecodeEntries(init).value;
      calc {
        Keys(DecodeEntries(raw).value);
        Keys(Put(m, k, DecodeTask(k, s, last.record)));
        { PutKeys(m, k, DecodeTask(k, s, last.record)); }
        Keys(m) + {k};
        { DecodeKeys(init); }
        StoredKeys(init) + {k};
        { StoredKeysLast(raw); }
        StoredKeys(raw);
      }
    }
  }

  /** Page.from_dict: the page's fields as stored, its task_map decoded. */
  function DecodePage(r: PageRecord): (p: Result<Page, DecodeError>)
    ensures p.Success? ==> p.value.id == r.id && p.value.createdAt == r.createdAt && p.value.lastModified == r.lastModified
    ensures p.Success? <==> DecodeEntries(r.taskMap).Success?
    ensures p.Success? ==> WellKeyed(p.value.taskMap)
  {
    match DecodeEntries(r.taskMap)
    case Failure(e) => Failure(e)
    case Success(m) =>
      DecodeWellKeyed(r.taskMap);
      Success(Page(r.id, r.createdAt, r.lastModified, m))
  }

  // ---------------------------------------------------------------- encoding

  function EncodeComment(c: Comment): CommentRecord {
    CommentRecord(c.createdAt, c.content)
  }

  function EncodeComments(cs: seq<Comment>): seq<CommentRecord> {
    seq(|cs|, i requires 0 <= i < |cs| => EncodeComment(cs[i]))
  }

  /** A comment list written by asdict reads back, through Comment.from_dict, as the same list in the same order. */
  lemma CommentsRoundTrip(cs: seq<Comment>)
    ensures DecodeComments(EncodeComments(cs)) == cs
  {
    var r := DecodeComments(EncodeComments(cs));
    forall i | 0 <= i < |cs| ensures r[i] == cs[i] {
      assert EncodeComments(cs)[i] == EncodeComment(cs[i]);
    }
  }

  function EncodeTask(t: Task): TaskRecord {
    TaskRecord(t.id, StatusName(t.status), t.content, EncodeComments(t.commentList), t.createdAt, t.lastModified)
  }

  function EncodeEntries(m: TaskMap): seq<RawEntry> {
    seq(|m|, i requires 0 <= i < |m| => RawEntry(IntToString(m[i].key), EncodeTask(m[i].task)))
  }

  /** asdict(page) as json.dump writes it. */
  function EncodePage(p: Page): PageRecord {
    PageRecord(p.id, p.createdAt, p.lastModified, EncodeEntries(p.taskMap))
  }

  // ---------------------------------------------------------------- round trip

  lemma TaskRoundTrip(t: Task)
    ensures DecodeTask(t.id, t.status, EncodeTask(t)) == t
  {
    CommentsRoundTrip(t.commentList);
  }

  /** DistinctKeys(m) ensures the last key does not occur earlier. */
  lemma LastKeyFresh(m: TaskMap)
    requires DistinctKeys(m) && m != []
    ensures m[|m| - 1].key !in Keys(m[..|m| - 1])
    ensures DistinctKeys(m[..|m| - 1])
  {
  }

  /** Encoding a map with one more entry at the end encodes that entry last. */
  lemma EncodeSnoc(init: TaskMap, last: Entry)
    ensures EncodeEntries(init + [last]) ==
      EncodeEntries(init) + [RawEntry(IntToString(last.key), EncodeTask(last.task))]
  {
    var a := EncodeEntries(init + [last]);
    var b := EncodeEntries(init) + [RawEntry(IntToString(last.key), EncodeTask(last.task))];
    assert |a| == |b|;
    forall i | 0 <= i < |a| ensures a[i] == b[i] {
      if i < |init| { assert (init + [last])[i] == init[i]; }
    }
  }

  /** Decoding the encoding of one more entry, under a new key, adds that entry at the end. */
  lemma EntriesRoundTripStep(init: TaskMap, last: Entry)
    requires last.key !in Keys(init) && last.task.id == last.key
    requires DecodeEntries(EncodeEntries(init)) == Success(init)
    ensures DecodeEntries(EncodeEntries(init + [last])) == Success(init + [last])
  {
    var e := RawEntry(IntToString(last.key), EncodeTask(last.task));
    EncodeSnoc(init, last);
    IntRoundTrip(last.key);
    StatusRoundTrip(last.task.status);
    DecodeSnoc(EncodeEntries(init), e, init, last.key, last.task.status);
    TaskRoundTrip(last.task);
    PutShape(init, last.key, last.task);
  }

  lemma {:induction false} EntriesRoundTrip(m: TaskMap)
    requires WellKeyed(m)
    ensures DecodeEntries(EncodeEntries(m)) == Success(m)
    decreases |m|
  {
    if m == [] {
      assert EncodeEntries(m) == [];
    } else {
      var init, last := m[..|m| - 1], m[|m| - 1];
      LastKeyFresh(m);
      assert WellKeyed(init);
      EntriesRoundTrip(init);
      EntriesRoundTripStep(init, last);
      assert init + [last] == m;
    }
  }

  /**
   * Decoding what was encoded gives the page back, comment order included,
   * when every task's id equals its key.
   */
  lemma PageRoundTrip(p: Page)
    requires WellKeyed(p.taskMap)
    ensures DecodePage(EncodePage(p)) == Success(p)
  {
    EntriesRoundTrip(p.taskMap);
  }

  /** Two sequences of stored members that agree on everything but the stored ids. */
  predicate SameButIds(a: seq<RawEntry>, b: seq<RawEntry>) {
    |a| == |b| &&
    forall j :: 0 <= j < |a| ==> a[j].key == b[j].key && a[j].record.(id := 0) == b[j].record.(id := 0)
  }

  /** Stored ids are never read: members that differ only in them decode alike, to the same map or the same error. */
  lemma {:induction false} DecodeIgnoresIds(a: seq<RawEntry>, b: seq<RawEntry>)
    requires SameButIds(a, b)
    ensures DecodeEntries(a) == DecodeEntries(b)
    decreases |a|
  {
    if a != [] {
      var n := |a| - 1;
      assert SameButIds(a[..n], b[..n]) by {
        assert forall j :: 0 <= j < n ==> a[..n][j] == a[j] && b[..n][j] == b[j];
      }
      DecodeIgnoresIds(a[..n], b[..n]);
      DecodeSameLast(a, b);
    }
  }

  /** A stored id is never read back: it changes neither a decoded map, whose ids come from the keys, nor a decoding error. */
  lemma DecodeIgnoresStoredId(raw: seq<RawEntry>, i: nat, id: int)
    requires i < |raw|
    ensures DecodeEntries(raw[i := raw[i].(record := raw[i].record.(id := id))]) == DecodeEntries(raw)
  {
    DecodeIgnoresIds(raw[i := raw[i].(record := raw[i].record.(id := id))], raw);
  }

  /**
   * Two sequences of stored members that decode alike up to their last
   * members, whose last members agree on everything but the stored id,
   * decode alike.
   */
  lemma DecodeSameLast(a: seq<RawEntry>, b: seq<RawEntry>)
    requires a != [] && |b| == |a|
    requires DecodeEntries(a[..|a| - 1]) == DecodeEntries(b[..|b| - 1])
    requires a[|a| - 1].key == b[|b| - 1].key
    requires a[|a| - 1].record.(id := 0) == b[|b| - 1].record.(id := 0)
    ensures DecodeEntries(a) == DecodeEntries(b)
  {
    AbsorbIgnoresId(DecodeEntries(a[..|a| - 1]), a[|a| - 1], b[|b| - 1]);
  }
}
