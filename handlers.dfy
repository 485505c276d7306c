/**
 * The parameter checks of the console's command handlers. Each handler reads
 * its arguments from fixed word positions of the normalised command, checks
 * them against the table configuration, and then either calls the storage
 * engine or reports an error. The engine call is modelled by the `Action`
 * it would receive; the error report by the error it prints.
 *
 * `ldb_valid_table` and `ldb_read_cfg` are not part of this model: they are
 * the two halves of a `Catalog` parameter.
 */
module Handlers {
  import opened CText
  import opened Normalize
  import opened Keys
  import opened Framing

  /** `LDB_KEY_LN`: the length of a short key, and of the temporary tables' keys. */
  const LDB_KEY_LN: int := 4

  /** The fields of `struct ldb_table` the checks use, and the "db/table" name that locates its files. */
  datatype Table = Table(name: string, keyLn: int, recLn: int, tmp: bool)

  /** Which tables exist (`ldb_valid_table`) and their stored configuration. */
  datatype Catalog = Catalog(valid: string -> bool, cfg: string -> Table)

  /** `ldb_read_cfg(name)`: the stored configuration of the table, for the table of that name. */
  function ReadCfg(db: Catalog, name: string): (t: Table)
    ensures t.name == name
  {
    db.cfg(name).(name := name)
  }

  datatype Error =
    | KeysInvalid        // E076: keys should contain key_ln bytes and share their first byte
    | MaxNotFixedLength  // E076: max record length should equal the fixed record length
    | MaxBelowKey        // E076: max record length cannot be smaller than the table key
    | KeyLengthsDiffer   // E076: merge requires equal key length
    | RecordTypesDiffer  // E076: merge requires equal record types
    | KeyTooShort        // E071: key length cannot be less than 32 bits
    | KeyLengthInvalid   // E073: provided key length is invalid
    | KeyNot32Bits       // E075: key length must be 32 bits

  datatype Format = Hex | Ascii | Csv

  /** The record printer a select hands to the engine, with its argument. */
  datatype Printer = HexPrinter(width: int) | AsciiPrinter | CsvPrinter(hexBytes: int)

  /** What a handler does once its checks are over. */
  datatype Action =
    | Collate(from: Table, to: Table, max: int, merge: bool, delKeys: seq<byte>)
    | Dump(table: Table, hex: int, sector: int)
    | Fetch(table: Table, key: seq<byte>, shortKey: bool, printer: Printer)
    | UnlinkList(table: Table, key: seq<byte>)
    | Write(table: Table, key: seq<byte>, record: seq<byte>)
    | Reject(error: Error)
    | Skip  // the table does not exist: the handler does nothing

  /** The collation target of collate and delete: the same table, temporary, with 4-byte keys. */
  function TmpTable(t: Table): Table {
    t.(tmp := true, keyLn := LDB_KEY_LN)
  }

  /** The checks on `max` that collate, delete and merge share, in the order the handlers make them. */
  function CheckMax(t: Table, max: int): (e: Option<Error>)
    ensures e.None? <==> (t.recLn == 0 || t.recLn == max) && max >= t.keyLn
    ensures t.recLn != 0 && t.recLn != max ==> e == Some(MaxNotFixedLength)
    ensures (t.recLn == 0 || t.recLn == max) && max < t.keyLn ==> e == Some(MaxBelowKey)
  {
    if t.recLn != 0 && t.recLn != max then Some(MaxNotFixedLength)
    else if max < t.keyLn then Some(MaxBelowKey)
    else None
  }

  // ---------------------------------------------------------------------
  // collate
  // ---------------------------------------------------------------------

  /** `ldb_command_collate` (src/command.c:261-293): "collate TABLE max N". */
  function CollateCommand(command: string, db: Catalog): (a: Action)
    ensures !db.valid(ExtractWord(2, command)) <==> a == Skip
    ensures a.Collate? <==>
      var t, max := ReadCfg(db, ExtractWord(2, command)), Atoi(ExtractWord(4, command));
      db.valid(ExtractWord(2, command)) && (t.recLn == 0 || t.recLn == max) && max >= t.keyLn
    ensures a.Collate? ==>
      && a.from == ReadCfg(db, ExtractWord(2, command)) && a.to == TmpTable(a.from)
      && a.max == Atoi(ExtractWord(4, command)) && !a.merge && a.delKeys == []
    ensures var t, max := ReadCfg(db, ExtractWord(2, command)), Atoi(ExtractWord(4, command));
      db.valid(ExtractWord(2, command)) && CheckMax(t, max).Some? ==> a == Reject(CheckMax(t, max).value)
  {
    var name := ExtractWord(2, command);
    var max := Atoi(ExtractWord(4, command));
    if !db.valid(name) then Skip
    else
      var t := ReadCfg(db, name);
      match CheckMax(t, max)
      case Some(e) => Reject(e)
      case None => Collate(t, TmpTable(t), max, false, [])
  }

  /** A collate typed as "collate TABLE max N" collates TABLE with the cap N when the checks on N pass. */
  lemma CollateTyped(name: string, n: nat, db: Catalog)
    requires IsWord(name) && n < 0x8000_0000 && db.valid(name)
    ensures var a, t := CollateCommand(Join(["collate", name, "max", DecimalString(n)]), db), ReadCfg(db, name);
      && (a.Collate? <==> (t.recLn == 0 || t.recLn == n) && n >= t.keyLn)
      && (a.Collate? ==> a.from == t && a.max == n)
      && (t.recLn != 0 && t.recLn != n ==> a == Reject(MaxNotFixedLength))
  {
    var ws := ["collate", name, "max", DecimalString(n)];
    assert IsWord(ws[0]) && IsWord(ws[2]);
    assert AllWords(ws);
    WordsOfJoin(ws);
    AtoiDecimal(n);
  }

  // ---------------------------------------------------------------------
  // delete
  // ---------------------------------------------------------------------

  /**
   * `ldb_command_delete` (src/command.c:211-254): "delete from TABLE max N
   * keys K1,K2,...". The keys are parsed with the table's key length.
   */
  function DeleteCommand(command: string, db: Catalog): (a: Action)
    requires KeysStart(command).Some?
    requires db.valid(ExtractWord(3, command)) ==> ReadCfg(db, ExtractWord(3, command)).keyLn > 0
    ensures !db.valid(ExtractWord(3, command)) <==> a == Skip
    ensures db.valid(ExtractWord(3, command)) ==>
      var t := ReadCfg(db, ExtractWord(3, command));
      var keys := ParseKeys(command[KeysStart(command).value..], t.keyLn);
      && (a == Reject(KeysInvalid) <==> |keys| < t.keyLn)
      && (a.Collate? <==> |keys| >= t.keyLn && CheckMax(t, Atoi(ExtractWord(5, command))).None?)
      && (|keys| >= t.keyLn && CheckMax(t, Atoi(ExtractWord(5, command))).Some? ==>
            a == Reject(CheckMax(t, Atoi(ExtractWord(5, command))).value))
      && (a.Collate? ==>
            && a.from == t && a.to == TmpTable(t) && a.max == Atoi(ExtractWord(5, command))
            && !a.merge && a.delKeys == keys)
  {
    var name := ExtractWord(3, command);
    var max := Atoi(ExtractWord(5, command));
    if !db.valid(name) then Skip
    else
      var t := ReadCfg(db, name);
      var keys := ParseKeys(command[KeysStart(command).value..], t.keyLn);
      if t.keyLn > |keys| then Reject(KeysInvalid)
      else
        match CheckMax(t, max)
        case Some(e) => Reject(e)
        case None => Collate(t, TmpTable(t), max, false, keys)
  }

  /**
   * A delete reaches the engine only with whole keys of the table's key
   * length, at least one, all in the sector of the first, and with nothing
   * in the key list but those keys and separators.
   */
  lemma DeleteKeysWellFormed(command: string, db: Catalog)
    requires KeysStart(command).Some?
    requires db.valid(ExtractWord(3, command)) ==> ReadCfg(db, ExtractWord(3, command)).keyLn > 0
    ensures var a := DeleteCommand(command, db);
      a.Collate? ==>
        var keyLn, list := a.from.keyLn, command[KeysStart(command).value..];
        && keyLn > 0 && |a.delKeys| >= keyLn && |a.delKeys| % keyLn == 0
        && OneSector(a.delKeys, keyLn)
        && BinToHex(a.delKeys) == Unseparated(list)
        && 2 * |a.delKeys| <= |list|
  {
    var a := DeleteCommand(command, db);
    if a.Collate? {
      var list := command[KeysStart(command).value..];
      ParseKeysBlocks(list, a.from.keyLn);
      ParseKeysSound(list, a.from.keyLn);
    }
  }

  // ---------------------------------------------------------------------
  // merge
  // ---------------------------------------------------------------------

  /**
   * `ldb_command_merge` (src/command.c:334-374): "merge TABLE into TABLE max N".
   * Only the source table is checked to exist.
   */
  function MergeCommand(command: string, db: Catalog): (a: Action)
    ensures !db.valid(ExtractWord(2, command)) <==> a == Skip
    ensures a.Collate? <==>
      var from, to := ReadCfg(db, ExtractWord(2, command)), ReadCfg(db, ExtractWord(4, command));
      var max := Atoi(ExtractWord(6, command));
      && db.valid(ExtractWord(2, command))
      && CheckMax(from, max).None?
      && from.keyLn == to.keyLn && from.recLn == to.recLn
    ensures a.Collate? ==>
      && a.from == ReadCfg(db, ExtractWord(2, command))
      && a.to == ReadCfg(db, ExtractWord(4, command)).(tmp := false, keyLn := LDB_KEY_LN)
      && a.max == Atoi(ExtractWord(6, command))
      && a.from.name == ExtractWord(2, command) && a.to.name == ExtractWord(4, command)
      && a.merge && a.delKeys == []
      && a.to.recLn == a.from.recLn
    ensures db.valid(ExtractWord(2, command)) ==>
      var from, to := ReadCfg(db, ExtractWord(2, command)), ReadCfg(db, ExtractWord(4, command));
      var max := Atoi(ExtractWord(6, command));
      && (CheckMax(from, max).Some? ==> a == Reject(CheckMax(from, max).value))
      && (CheckMax(from, max).None? && from.keyLn != to.keyLn ==> a == Reject(KeyLengthsDiffer))
      && (CheckMax(from, max).None? && from.keyLn == to.keyLn && from.recLn != to.recLn ==> a == Reject(RecordTypesDiffer))
  {
    var name, into := ExtractWord(2, command), ExtractWord(4, command);
    var max := Atoi(ExtractWord(6, command));
    if !db.valid(name) then Skip
    else
      var from, to := ReadCfg(db, name), ReadCfg(db, into);
      match CheckMax(from, max)
      case Some(e) => Reject(e)
      case None =>
        if from.keyLn != to.keyLn then Reject(KeyLengthsDiffer)
        else if from.recLn != to.recLn then Reject(RecordTypesDiffer)
        else Collate(from, to.(tmp := false, keyLn := LDB_KEY_LN), max, true, [])
  }

  // ---------------------------------------------------------------------
  // select
  // ---------------------------------------------------------------------

  /** `ldb_command_select` (src/command.c:521-585): "select from TABLE key KEY ..." */
  function SelectCommand(command: string, db: Catalog, format: Format): (a: Action)
    ensures !db.valid(ExtractWord(3, command)) <==> a == Skip
    ensures a == Reject(KeyTooShort) <==> db.valid(ExtractWord(3, command)) && |ExtractWord(5, command)| < 8
    ensures a.Fetch? <==>
      var t, key := ReadCfg(db, ExtractWord(3, command)), ExtractWord(5, command);
      db.valid(ExtractWord(3, command)) && |key| >= 8 && (|key| / 2 == t.keyLn || |key| / 2 == LDB_KEY_LN)
    ensures a == Reject(KeyLengthInvalid) <==>
      var t, key := ReadCfg(db, ExtractWord(3, command)), ExtractWord(5, command);
      db.valid(ExtractWord(3, command)) && |key| >= 8 && |key| / 2 != t.keyLn && |key| / 2 != LDB_KEY_LN
    ensures a.Fetch? ==> a.table == ReadCfg(db, ExtractWord(3, command)) && a.key == HexToBin(ExtractWord(5, command))
  {
    var name, key := ExtractWord(3, command), ExtractWord(5, command);
    var hexBytes := if format == Csv then Atoi(ExtractWord(8, command)) else 0;
    if !db.valid(name) then Skip
    else if |key| < 8 then Reject(KeyTooShort)
    else
      var keyLn := |key| / 2;
      var t := ReadCfg(db, name);
      var width := if t.recLn == 0 then 16 else t.recLn;
      if keyLn != t.keyLn && keyLn != LDB_KEY_LN then Reject(KeyLengthInvalid)
      else
        var printer := match format
          case Hex => HexPrinter(width)
          case Ascii => AsciiPrinter
          case Csv => CsvPrinter(hexBytes);
        Fetch(t, HexToBin(key), keyLn == LDB_KEY_LN, printer)
  }

  /**
   * A select fetches with a key of the table's key length or a 4-byte short
   * key, and matches by prefix exactly when the key is 4 bytes long.
   */
  lemma SelectKeyLengths(command: string, db: Catalog, format: Format)
    ensures var a := SelectCommand(command, db, format);
      a.Fetch? ==>
        && |a.key| >= LDB_KEY_LN
        && (|a.key| == a.table.keyLn || |a.key| == LDB_KEY_LN)
        && (a.shortKey <==> |a.key| == LDB_KEY_LN)
  {
  }

  /** A hex dump prints records as wide as the table's fixed record length, or 16 bytes wide. */
  lemma SelectHexWidth(command: string, db: Catalog)
    ensures var a := SelectCommand(command, db, Hex);
      a.Fetch? ==> a.printer.HexPrinter? && a.printer.width == (if a.table.recLn == 0 then 16 else a.table.recLn)
  {
  }

  /** Ascii output uses the ascii printer; csv output the csv printer, given `atoi` of the eighth word. */
  lemma SelectPrinter(command: string, db: Catalog, format: Format)
    ensures var a := SelectCommand(command, db, format);
      a.Fetch? ==>
        && (format == Ascii ==> a.printer == AsciiPrinter)
        && (format == Csv ==> a.printer == CsvPrinter(Atoi(ExtractWord(8, command))))
  {
  }

  /** On a table with 4-byte keys every select is a short-key select. */
  lemma SelectOnShortKeyTable(command: string, db: Catalog, format: Format)
    requires ReadCfg(db, ExtractWord(3, command)).keyLn == LDB_KEY_LN
    ensures var a := SelectCommand(command, db, format);
      a.Fetch? ==> a.shortKey && |a.key| == LDB_KEY_LN
  {
  }

  // ---------------------------------------------------------------------
  // unlink list
  // ---------------------------------------------------------------------

  /** `ldb_command_unlink_list` (src/command.c:387-420): "unlink list from TABLE key KEY". */
  function UnlinkCommand(command: string, db: Catalog): (a: Action)
    ensures !db.valid(ExtractWord(4, command)) <==> a == Skip
    ensures a.UnlinkList? <==> db.valid(ExtractWord(4, command)) && |ExtractWord(6, command)| == 8
    ensures a == Reject(KeyNot32Bits) <==> db.valid(ExtractWord(4, command)) && |ExtractWord(6, command)| != 8
    ensures a.UnlinkList? ==> a.table == ReadCfg(db, ExtractWord(4, command)) && a.key == HexToBin(ExtractWord(6, command))
  {
    var name, key := ExtractWord(4, command), ExtractWord(6, command);
    if !db.valid(name) then Skip
    else if |key| != 8 then Reject(KeyNot32Bits)
    else UnlinkList(ReadCfg(db, name), HexToBin(key))
  }

  /** An unlink names a list by a 4-byte key, the key the command spells in hex. */
  lemma UnlinkKey(command: string, db: Catalog)
    requires forall i :: 0 <= i < |ExtractWord(6, command)| ==> IsLowerHex(ExtractWord(6, command)[i])
    ensures var a := UnlinkCommand(command, db);
      a.UnlinkList? ==> |a.key| == LDB_KEY_LN && BinToHex(a.key) == ExtractWord(6, command)
  {
    var key := ExtractWord(6, command);
    if |key| == 8 {
      BinToHexOfHexToBin(key);
    }
  }

  // ---------------------------------------------------------------------
  // insert
  // ---------------------------------------------------------------------

  /** The bytes of a word of printable ASCII. */
  function Bytes(w: string): (b: seq<byte>)
    requires forall i :: 0 <= i < |w| ==> w[i] as int < 256
    ensures |b| == |w| && forall i :: 0 <= i < |w| ==> b[i] == w[i] as int
  {
    seq(|w|, i requires 0 <= i < |w| => w[i] as int)
  }

  /**
   * `ldb_command_insert` (src/command.c:428-483): "insert into TABLE key KEY
   * ascii|hex DATA". The record written is the payload behind its header;
   * for hex data the payload is the decoded data.
   */
  function InsertCommand(command: string, db: Catalog, hexData: bool): (a: Action)
    ensures !db.valid(ExtractWord(3, command)) <==> a == Skip
    ensures a.Write? <==> db.valid(ExtractWord(3, command)) && |ExtractWord(5, command)| >= 8
    ensures a == Reject(KeyTooShort) <==> db.valid(ExtractWord(3, command)) && |ExtractWord(5, command)| < 8
    ensures a.Write? ==>
      && a.table == ReadCfg(db, ExtractWord(3, command))
      && a.key == HexToBin(ExtractWord(5, command)) && |a.key| >= LDB_KEY_LN
      && |a.record| >= 4
      && a.record[4..] == if hexData then HexToBin(ExtractWord(7, command)) else Bytes(ExtractWord(7, command))
  {
    var name, key, data := ExtractWord(3, command), ExtractWord(5, command), ExtractWord(7, command);
    if !db.valid(name) then Skip
    else if |key| < 8 then Reject(KeyTooShort)
    else
      var payload := if hexData then HexToBin(data) else Bytes(data);
      Write(ReadCfg(db, name), HexToBin(key), Frame(payload))
  }

  /**
   * The record an insert writes reads back as the data of the command: its
   * bytes for ascii, its decoded bytes for hex, as long as the length fits
   * the 16-bit header.
   */
  lemma InsertRecordReadsBack(command: string, db: Catalog, hexData: bool)
    requires |ExtractWord(7, command)| <= U16_RANGE - 3
    ensures var a := InsertCommand(command, db, hexData);
      var data := ExtractWord(7, command);
      a.Write? ==>
        && Unframe(a.record).Some?
        && (!hexData ==>
              |Unframe(a.record).value| == |data| &&
              forall i :: 0 <= i < |data| ==> Unframe(a.record).value[i] == data[i] as int)
        && (hexData && HexWord(data) ==> BinToHex(Unframe(a.record).value) == data)
  {
    var a := InsertCommand(command, db, hexData);
    var data := ExtractWord(7, command);
    if a.Write? {
      var payload := if hexData then HexToBin(data) else Bytes(data);
      UnframeFrame(payload);
      if hexData && HexWord(data) {
        BinToHexOfHexToBin(data);
      }
    }
  }

  /** A word of an even number of lowercase hex digits. */
  predicate HexWord(w: string) {
    |w| % 2 == 0 && forall i :: 0 <= i < |w| ==> IsLowerHex(w[i])
  }

  // ---------------------------------------------------------------------
  // dump
  // ---------------------------------------------------------------------

  /** The sector check of `ldb_command_dump` as written: anything outside 0..256 means all sectors (-1). */
  function SectorAsWritten(n: int): (s: int)
    ensures s == -1 || s == n
    ensures s == -1 <==> n < 0 || n > 256
  {
    if n < 0 || n > 256 then -1 else n
  }

  /** The sector check as intended: a sector is a first key byte, 0..255; anything else means all sectors. */
  function Sector(n: int): (s: int)
    ensures -1 <= s <= 255
    ensures 0 <= n <= 255 ==> s == n
    ensures !(0 <= n <= 255) ==> s == -1
  {
    if n < 0 || n > 255 then -1 else n
  }

  /** As written, "sector 100" (hex 256) passes the check and names a sector no key can be in. */
  lemma SectorAsWrittenLets256Through()
    ensures SectorAsWritten(Int32(StrToL("100", 16))) == 256
    ensures Sector(Int32(StrToL("100", 16))) == -1
  {
    Hex100();
  }

  /** `strtol("100", NULL, 16)` is 256. */
  lemma Hex100()
    ensures StrToL("100", 16) == 256
  {
    var s := "100";
    assert AllDigits(s, 16) by {
      assert DigitValue(s[0]) == 1 && DigitValue(s[1]) == 0 && DigitValue(s[2]) == 0;
    }
    Hex100Digits();
  }

  /** The digits of "100" read in base 16. */
  lemma Hex100Digits()
    ensures DigitsValue("100", 16) == 256
  {
    var s := "100";
    var one, ten := s[..1], s[..2];
    assert one[..0] == [] && ten[..1] == one && s[..2] == ten;
    assert DigitsValue(one, 16) == 1;
    assert DigitsValue(ten, 16) == 16;
    assert s[1..][1..][1..] == [];
  }

  /**
   * `ldb_command_dump` (src/command.c:300-327): "dump TABLE hex N [sector S]".
   * The sector word is read in base 16 only when a fifth word is present.
   */
  function DumpCommand(command: string, db: Catalog): (a: Action)
    ensures !db.valid(ExtractWord(2, command)) <==> a == Skip
    ensures a.Dump? ==> a.table == ReadCfg(db, ExtractWord(2, command)) && a.hex == Atoi(ExtractWord(4, command)) && -1 <= a.sector <= 255
    ensures db.valid(ExtractWord(2, command)) ==> a.Dump?
    ensures a.Dump? && ExtractWord(5, command) == [] ==> a.sector == -1
    ensures a.Dump? && ExtractWord(5, command) != [] ==> a.sector == Sector(Int32(StrToL(ExtractWord(6, command), 16)))
  {
    var name := ExtractWord(2, command);
    var sector := if ExtractWord(5, command) != [] then Sector(Int32(StrToL(ExtractWord(6, command), 16))) else -1;
    var hex := Atoi(ExtractWord(4, command));
    if !db.valid(name) then Skip
    else Dump(ReadCfg(db, name), hex, sector)
  }

  /** A dump of one sector, named by two lowercase hex digits, dumps exactly that sector. */
  lemma DumpOneSector(command: string, db: Catalog)
    requires db.valid(ExtractWord(2, command)) && ExtractWord(5, command) != []
    requires |ExtractWord(6, command)| == 2 && HexWord(ExtractWord(6, command))
    ensures DumpCommand(command, db).sector == HexToBin(ExtractWord(6, command))[0]
  {
    var w := ExtractWord(6, command);
    HexPairValue(w);
    assert HexToBin(w)[0] == HexByte(w[0], w[1]);
  }

  /** `strtol` in base 16 reads two lowercase hex digits as the byte `ldb_hex_to_bin` makes of them. */
  lemma HexPairValue(w: string)
    requires |w| == 2 && IsLowerHex(w[0]) && IsLowerHex(w[1])
    ensures StrToL(w, 16) == HexByte(w[0], w[1])
  {
    assert SkipSpace(w) == w by { assert !IsSpace(w[0]); }
    assert DigitRun(w, 16) == 2 by { assert DigitRun(w[1..], 16) == 1; }
    var hi := w[..1];
    assert w[..2] == w && w[..1][..0] == [];
    assert DigitsValue(hi, 16) == DigitValue(w[0]);
    assert Magnitude(w, 16) == DigitsValue(w, 16);
  }
}
