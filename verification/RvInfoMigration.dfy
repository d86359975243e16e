/** The start-up step that rewrites a stored V1 JSON document as CBOR. */
module RvInfoMigration {
  import opened Wrappers
  import opened RvInstruction
  import Cbor
  import V1 = RvInfoV1

  /** json.Unmarshal into the list of V1 records. */
  type JsonReader = Bytes -> Option<seq<V1.RvHuman>>

  predicate IsJsonSpace(b: byte) { b == 0x20 || b == 0x09 || b == 0x0A || b == 0x0D }

  function FirstSignificant(b: Bytes): Option<byte> {
    if b == [] then None else if IsJsonSpace(b[0]) then FirstSignificant(b[1..]) else Some(b[0])
  }

  /** Only a JSON array or the literal null fills a list, so the text starts with '[' or 'n'. */
  ghost predicate IsJson(read: JsonReader) {
    forall b :: read(b).Some? ==> FirstSignificant(b) == Some(0x5B) || FirstSignificant(b) == Some(0x6E)
  }

  /** The text from its k-th byte on, the bytes before it being the four space characters of JSON. */
  ghost predicate StartsAt(b: Bytes, k: nat, first: byte) {
    k < |b| && b[k] == first && forall i :: 0 <= i < k ==> b[i] in {0x20, 0x09, 0x0A, 0x0D}
  }

  lemma {:induction false} SignificantAt(b: Bytes, k: nat, first: byte)
    requires first in {0x5B, 0x6E}
    ensures StartsAt(b, k, first) ==> FirstSignificant(b) == Some(first)
    ensures FirstSignificant(b) == Some(first) ==> exists j :: StartsAt(b, j, first)
  {
    if b != [] {
      if IsJsonSpace(b[0]) {
        SignificantAt(b[1..], if k > 0 then k - 1 else 0, first);
        if j: nat :| StartsAt(b[1..], j, first) {
          assert forall i :: 0 < i <= j ==> b[i] == b[1..][i - 1];
          assert StartsAt(b, j + 1, first);
        }
      } else if b[0] == first {
        assert StartsAt(b, 0, first);
      }
    }
  }

  /** The assumption on json.Unmarshal: what it reads begins, after spaces, with '[' or with 'n'. */
  lemma IsJsonExactly(read: JsonReader)
    ensures IsJson(read)
            <==> forall b :: read(b).Some? ==> exists k :: StartsAt(b, k, 0x5B) || StartsAt(b, k, 0x6E)
  {
    forall b
      ensures FirstSignificant(b) == Some(0x5B) || FirstSignificant(b) == Some(0x6E)
              <==> exists k :: StartsAt(b, k, 0x5B) || StartsAt(b, k, 0x6E)
    {
      SignificantAt(b, 0, 0x5B);
      SignificantAt(b, 0, 0x6E);
      if k: nat :| StartsAt(b, k, 0x5B) || StartsAt(b, k, 0x6E) {
        SignificantAt(b, k, 0x5B);
        SignificantAt(b, k, 0x6E);
      }
    }
  }

  datatype Outcome = ReadFailed | NoRow | AlreadyCbor | Migrated | Unreadable | Unencodable | WriteFailed

  /** Which of the step's two statements work. */
  datatype Storage = Storage(canRead: bool, canWrite: bool)

  const WORKS := Storage(true, true)

  /** What migrateRvInfoToCBOR reports and what the row holds afterwards. */
  function Step(h: Host, read: JsonReader, row: Option<Bytes>, db: Storage): (Outcome, Option<Bytes>) {
    if !db.canRead then (ReadFailed, row)
    else
      match row
      case None => (NoRow, row)
      case Some(b) =>
        if Unmarshal(b).Some? then (AlreadyCbor, row)
        else
          match read(b)
          case None => (Unreadable, row)
          case Some(doc) =>
            match V1.ParseDoc(h, doc)
            case None => (Unreadable, row)
            case Some(ds) =>
              match Marshal(ds)
              case None => (Unencodable, row)
              case Some(c) => if db.canWrite then (Migrated, Some(c)) else (WriteFailed, row)
  }

  /** The directives that V1 JSON bytes mean, if they are a V1 document. */
  function V1Meaning(h: Host, read: JsonReader, b: Bytes): Option<seq<Directive>> {
    match read(b) case Some(doc) => V1.ParseDoc(h, doc) case None => None
  }

  /** FetchRvInfo on the singleton row. */
  function Fetch(row: Option<Bytes>): Option<seq<Directive>> {
    match row case Some(b) => Unmarshal(b) case None => None
  }

  class RvInfoTable {
    var row: Option<Bytes>

    constructor (row: Option<Bytes>)
      ensures this.row == row
    {
      this.row := row;
    }

    /** migrateRvInfoToCBOR. */
    method Migrate(h: Host, read: JsonReader, db: Storage) returns (outcome: Outcome)
      modifies this
      ensures (outcome, row) == Step(h, read, old(row), db)
    {
      if !db.canRead {
        return ReadFailed;
      }
      if row.None? {
        return NoRow;
      }
      var stored := row.value;
      if Unmarshal(stored).Some? {
        return AlreadyCbor;
      }
      var doc := read(stored);
      if doc.None? {
        return Unreadable;
      }
      var ds := V1.Parse(h, doc.value);
      if ds.Err? {
        return Unreadable;
      }
      var encoded := Marshal(ds.value);
      if encoded.None? {
        return Unencodable;
      }
      if !db.canWrite {
        return WriteFailed;
      }
      row := encoded;
      return Migrated;
    }
  }

  /** A CBOR array starts with 0x80..0x9F; JSON text starts with a space, '[' or 'n'. */
  lemma FormatsDisjoint(read: JsonReader, b: Bytes)
    requires IsJson(read)
    ensures !(Unmarshal(b).Some? && read(b).Some?)
  {
    if Unmarshal(b).Some? {
      assert Cbor.ReadArray(ReadDirective, b).Some?;
      assert b[0] / 32 == Cbor.ARRAY;
      assert FirstSignificant(b) == Some(b[0]);
    }
  }

  /**
   * After the step a fetch returns exactly what the old bytes meant: the decoded CBOR if they were
   * CBOR, else what the V1 parser made of them; and nothing else about the row changes.
   */
  lemma MigrationMeaning(h: Host, read: JsonReader, b: Bytes)
    requires IsJson(read)
    ensures var (outcome, row) := Step(h, read, Some(b), WORKS);
            && (Unmarshal(b).Some? ==> outcome == AlreadyCbor && row == Some(b) && V1Meaning(h, read, b).None?)
            && (V1Meaning(h, read, b).Some? && Marshal(V1Meaning(h, read, b).value).Some?
                ==> outcome == Migrated && Fetch(row) == V1Meaning(h, read, b))
            && (Unmarshal(b).None? && V1Meaning(h, read, b).None? ==> outcome == Unreadable && row == Some(b))
            && (row != Some(b) ==> outcome == Migrated && Fetch(Some(b)).None?)
  {
    FormatsDisjoint(read, b);
    if V1Meaning(h, read, b).Some? && Marshal(V1Meaning(h, read, b).value).Some? {
      StoredRoundTrip(V1Meaning(h, read, b).value);
    }
  }

  /**
   * What the step reports, and why: storage that cannot be read, no row, CBOR already, no V1 document,
   * directives that do not encode, a failed update, or a migration, and only the last changes the row.
   */
  lemma OutcomeExactly(h: Host, read: JsonReader, row: Option<Bytes>, db: Storage)
    ensures var (outcome, row') := Step(h, read, row, db);
            var meaning := if row.Some? && Unmarshal(row.value).None? then V1Meaning(h, read, row.value) else None;
            && (outcome == ReadFailed <==> !db.canRead)
            && (outcome == NoRow <==> db.canRead && row.None?)
            && (outcome == AlreadyCbor <==> db.canRead && row.Some? && Unmarshal(row.value).Some?)
            && (outcome == Unreadable <==> db.canRead && row.Some? && Unmarshal(row.value).None? && meaning.None?)
            && (outcome == Unencodable <==> db.canRead && meaning.Some? && Marshal(meaning.value).None?)
            && (outcome == WriteFailed
                <==> db.canRead && !db.canWrite && meaning.Some? && Marshal(meaning.value).Some?)
            && row' == if outcome == Migrated then Marshal(meaning.value) else row
  {
  }

  /** The row after a list of start-ups, each with or without working statements. */
  function Restarts(h: Host, read: JsonReader, row: Option<Bytes>, starts: seq<Storage>): Option<Bytes>
    decreases |starts|
  {
    if starts == [] then row else Restarts(h, read, Step(h, read, row, starts[0]).1, starts[1..])
  }

  /**
   * However often the server restarts, and whichever statements fail, the row holds the original bytes
   * or the bytes of the first successful migration, never anything else: the step is idempotent.
   */
  lemma {:induction false} RestartsConverge(h: Host, read: JsonReader, row: Option<Bytes>, starts: seq<Storage>)
    ensures Restarts(h, read, row, starts)
            == if exists i :: 0 <= i < |starts| && starts[i] == WORKS then Step(h, read, row, WORKS).1 else row
    decreases |starts|
  {
    if starts != [] {
      var next := Step(h, read, row, starts[0]).1;
      RestartsConverge(h, read, next, starts[1..]);
      StepIdempotent(h, read, row);
      assert forall i :: 0 <= i < |starts[1..]| ==> starts[1..][i] == starts[i + 1];
      assert (exists i :: 0 <= i < |starts| && starts[i] == WORKS)
             <==> starts[0] == WORKS || exists i :: 0 <= i < |starts[1..]| && starts[1..][i] == WORKS by {
        if i :| 0 <= i < |starts| && starts[i] == WORKS {
          if i > 0 { assert starts[1..][i - 1] == WORKS; }
        }
      }
    }
  }

  lemma StepIdempotent(h: Host, read: JsonReader, row: Option<Bytes>)
    ensures var row' := Step(h, read, row, WORKS).1;
            forall db :: Step(h, read, row', db).1 == row'
  {
    if Step(h, read, row, WORKS).0 == Migrated {
      StoredRoundTrip(V1Meaning(h, read, row.value).value);
    }
  }
}
