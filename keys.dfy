/**
 * The key list of a `delete` command: `keys_start` finds the text after
 * " keys ", `fetch_keys` reads it as lowercase hexadecimal keys of `key_ln`
 * bytes each, separated (or not) by commas and spaces, and packs them into
 * one blob. The list is rejected as a whole (size 0) when a key is malformed
 * or does not share its first byte (its sector) with the first key.
 *
 * `ldb_hex_to_bin` is not part of this model: it is modelled by `HexToBin`,
 * which decodes pairs of characters and reads a character that is not a hex
 * digit as 0.
 */
module Keys {
  import opened CText

  const KEYWORD: string := " keys "

  /** `keys_start` (src/command.c:133-139): the offset just after the first " keys ", if any. */
  function KeysStart(command: string): (r: Option<nat>)
    ensures r.Some? <==> exists k :: OccursAt(command, KEYWORD, k)
    ensures r.Some? ==> |KEYWORD| <= r.value <= |command| && OccursAt(command, KEYWORD, r.value - |KEYWORD|)
    ensures r.Some? ==> forall k :: 0 <= k < r.value - |KEYWORD| ==> !OccursAt(command, KEYWORD, k)
  {
    match Find(command, KEYWORD, 0)
    case None => None
    case Some(k) => Some(k + |KEYWORD|)
  }

  // ---------------------------------------------------------------------
  // Hexadecimal codec
  // ---------------------------------------------------------------------

  /** Digit value of a hex character; anything else reads as 0. */
  function HexValue(c: char): (v: nat)
    ensures v < 16
  {
    if '0' <= c <= '9' then c as int - '0' as int
    else if 'a' <= c <= 'f' then c as int - 'a' as int + 10
    else if 'A' <= c <= 'F' then c as int - 'A' as int + 10
    else 0
  }

  /** The lowercase hex digit for `v`. */
  function HexDigit(v: nat): (c: char)
    requires v < 16
    ensures IsLowerHex(c) && HexValue(c) == v
  {
    if v < 10 then ('0' as int + v) as char else ('a' as int + v - 10) as char
  }

  function HexByte(hi: char, lo: char): byte {
    HexValue(hi) * 16 + HexValue(lo)
  }

  /** `ldb_hex_to_bin`: every pair of characters becomes one byte, high nibble first. */
  function HexToBin(h: string): (b: seq<byte>)
    ensures |b| == |h| / 2
  {
    if |h| < 2 then [] else [HexByte(h[0], h[1])] + HexToBin(h[2..])
  }

  /** Lowercase hexadecimal spelling of bytes, as keys are printed. */
  function BinToHex(b: seq<byte>): (h: string)
    ensures |h| == 2 * |b|
  {
    if b == [] then [] else [HexDigit(b[0] / 16), HexDigit(b[0] % 16)] + BinToHex(b[1..])
  }

  lemma {:induction false} BinToHexIsHex(b: seq<byte>)
    ensures forall i :: 0 <= i < |BinToHex(b)| ==> IsLowerHex(BinToHex(b)[i])
  {
    if b != [] {
      BinToHexIsHex(b[1..]);
      var h := BinToHex(b);
      assert h[2..] == BinToHex(b[1..]);
      forall i | 2 <= i < |h|
        ensures IsLowerHex(h[i])
      {
        assert h[i] == h[2..][i - 2];
      }
    }
  }

  lemma {:induction false} HexToBinOfBinToHex(b: seq<byte>)
    ensures HexToBin(BinToHex(b)) == b
  {
    if b != [] {
      var h := BinToHex(b);
      assert h[2..] == BinToHex(b[1..]);
      HexToBinOfBinToHex(b[1..]);
    }
  }

  lemma {:induction false} BinToHexOfHexToBin(h: string)
    requires |h| % 2 == 0
    requires forall i :: 0 <= i < |h| ==> IsLowerHex(h[i])
    ensures BinToHex(HexToBin(h)) == h
  {
    if h != [] {
      var b := HexByte(h[0], h[1]);
      assert b / 16 == HexValue(h[0]) && b % 16 == HexValue(h[1]);
      LowerHexDigit(h[0]);
      LowerHexDigit(h[1]);
      BinToHexOfHexToBin(h[2..]);
      assert h == [h[0], h[1]] + h[2..];
    }
  }

  lemma LowerHexDigit(c: char)
    requires IsLowerHex(c)
    ensures HexDigit(HexValue(c)) == c
  {
  }

  // ---------------------------------------------------------------------
  // valid_hex_ln
  // ---------------------------------------------------------------------

  /** The first `ln` characters of `s` exist and are lowercase hex digits. */
  predicate HexPrefix(s: string, ln: int) {
    ln <= |s| && forall i :: 0 <= i < ln ==> IsLowerHex(s[i])
  }

  /**
   * `valid_hex_ln` (src/command.c:148-156). A C string that ends before `ln`
   * characters meets its terminator, which is no hex digit, so a short
   * string is rejected and nothing past the terminator is read.
   */
  method ValidHexLn(s: string, ln: int) returns (valid: bool)
    ensures valid <==> ln <= |s| && forall i :: 0 <= i < ln ==> IsLowerHex(s[i])
  {
    var i := 0;
    while i < ln
      invariant 0 <= i <= |s|
      invariant i <= ln || ln < 0
      invariant forall k :: 0 <= k < i ==> IsLowerHex(s[k])
    {
      var h := if i < |s| then s[i] else '\0';
      if h < '0' || ('9' < h < 'a') || h > 'f' {
        return false;
      }
      i := i + 1;
    }
    return true;
  }

  // ---------------------------------------------------------------------
  // The key list
  // ---------------------------------------------------------------------

  predicate IsSeparator(c: char) {
    c == ' ' || c == ','
  }

  /** The `n` characters the parser reads from `t`: past its end it meets the terminator, read as NUL. */
  function Chars(t: string, n: nat): (r: string)
    ensures |r| == n
  {
    if n <= |t| then t[..n] else t + Nuls(n - |t|)
  }

  /** `k` NUL characters. */
  function Nuls(k: nat): (r: string)
    ensures |r| == k
  {
    if k == 0 then [] else Nuls(k - 1) + ['\0']
  }

  function Min(a: int, b: int): int {
    if a < b then a else b
  }

  /**
   * The keys of `t`, `keyLn` bytes each, or None when the list is malformed.
   * Each key takes `2 * keyLn` characters, of which the first `checkLn` are
   * checked to be lowercase hex digits before all of them are decoded.
   */
  function Scan(t: string, keyLn: nat, checkLn: nat): (r: Option<seq<seq<byte>>>)
    requires keyLn > 0
    ensures r.Some? ==> forall i :: 0 <= i < |r.value| ==> |r.value[i]| == keyLn
    decreases |t|
  {
    if t == [] then Some([])
    else if IsSeparator(t[0]) then Scan(t[1..], keyLn, checkLn)
    else if HexPrefix(t, checkLn) then
      match Scan(t[Min(2 * keyLn, |t|)..], keyLn, checkLn)
      case None => None
      case Some(rest) => Some([HexToBin(Chars(t, 2 * keyLn))] + rest)
    else None
  }

  /** All keys share the first byte of the first key: they lie in one sector. */
  predicate SameFirstByte(ks: seq<seq<byte>>) {
    forall i :: 0 <= i < |ks| ==> |ks[0]| > 0 && |ks[i]| > 0 && ks[i][0] == ks[0][0]
  }

  /** Keys packed one after the other. */
  function Flatten(ks: seq<seq<byte>>): seq<byte> {
    if ks == [] then [] else Flatten(ks[..|ks| - 1]) + ks[|ks| - 1]
  }

  /** The blob `fetch_keys` leaves, up to `*size`: empty when the list is rejected. */
  function ParseKeysChecking(s: string, keyLn: nat, checkLn: nat): seq<byte>
    requires keyLn > 0
  {
    match Scan(s, keyLn, checkLn)
    case None => []
    case Some(ks) => if SameFirstByte(ks) then Flatten(ks) else []
  }

  /** `fetch_keys` as written: only the first `key_ln` of a key's `2 * key_ln` characters are checked. */
  function ParseKeysAsWritten(s: string, keyLn: nat): (r: seq<byte>)
    requires keyLn > 0
    ensures ParseKeys(s, keyLn) != [] ==> r == ParseKeys(s, keyLn)
  {
    ScanFullCheckAgrees(s, keyLn);
    ParseKeysChecking(s, keyLn, keyLn)
  }

  /** Checking half of each key's characters accepts whatever checking all of them accepts, with the same keys. */
  lemma {:induction false} ScanFullCheckAgrees(t: string, keyLn: nat)
    requires keyLn > 0
    ensures Scan(t, keyLn, 2 * keyLn).Some? ==> Scan(t, keyLn, keyLn) == Scan(t, keyLn, 2 * keyLn)
    decreases |t|
  {
    if t != [] {
      if IsSeparator(t[0]) {
        ScanFullCheckAgrees(t[1..], keyLn);
      } else if HexPrefix(t, 2 * keyLn) {
        assert HexPrefix(t, keyLn);
        ScanFullCheckAgrees(t[Min(2 * keyLn, |t|)..], keyLn);
      }
    }
  }

  /** `fetch_keys` with every character of every key checked. */
  function ParseKeys(s: string, keyLn: nat): seq<byte>
    requires keyLn > 0
  {
    ParseKeysChecking(s, keyLn, 2 * keyLn)
  }

  function Prepend(done: seq<seq<byte>>, r: Option<seq<seq<byte>>>): Option<seq<seq<byte>>> {
    match r
    case None => None
    case Some(ks) => Some(done + ks)
  }

  lemma FlattenSnoc(ks: seq<seq<byte>>, k: seq<byte>)
    ensures Flatten(ks + [k]) == Flatten(ks) + k
  {
    assert (ks + [k])[..|ks|] == ks;
  }

  /**
   * `fetch_keys` (src/command.c:166-204), with the check of line 180 covering
   * all `2 * key_ln` characters of a key. The blob has room for `strlen / 2`
   * bytes, as allocated there; its first `size` bytes are the parsed keys.
   */
  method FetchKeys(keys: string, keyLn: nat) returns (keyblob: array<byte>, size: nat)
    requires keyLn > 0
    ensures keyblob.Length == |keys| / 2
    ensures size <= keyblob.Length && keyblob[..size] == ParseKeys(keys, keyLn)
  {
    keyblob := new byte[|keys| / 2];
    size := 0;
    var p := 0;
    ghost var got: seq<seq<byte>> := [];
    FetchStart(keys, keyLn, keyblob[..]);
    while p < |keys|
      invariant Fetched(keys, keyLn, p, keyblob[..], size, got)
      decreases |keys| - p
    {
      var accepted;
      accepted, p, size, got := FetchStep(keys, keyLn, p, keyblob, size, got);
      if !accepted {
        size := 0;
        return;
      }
    }
    AllRead(keys, keyLn, p, keyblob[..], size, got);
  }

  /**
   * One pass of the loop of `fetch_keys` (src/command.c:175-199): a
   * separator is skipped, anything else is read as a key.
   */
  method FetchStep(keys: string, keyLn: nat, p: nat, keyblob: array<byte>, size: nat, ghost got: seq<seq<byte>>)
    returns (accepted: bool, p': nat, size': nat, ghost got': seq<seq<byte>>)
    requires keyLn > 0 && p < |keys|
    requires Fetched(keys, keyLn, p, keyblob[..], size, got)
    modifies keyblob
    ensures accepted ==> p < p' && Fetched(keys, keyLn, p', keyblob[..], size', got')
    ensures !accepted ==> ParseKeys(keys, keyLn) == []
    ensures IsSeparator(keys[p]) ==> accepted && p' == p + 1 && size' == size && got' == got
    ensures !IsSeparator(keys[p]) && accepted ==> p' == p + 2 * keyLn && size' == size + keyLn
  {
    if IsSeparator(keys[p]) {
      SeparatorSkipped(keys, keyLn, p, keyblob[..], size, got);
      return true, p + 1, size, got;
    }
    accepted, p', size', got' := ReadKey(keys, keyLn, p, keyblob, size, got);
  }

  /**
   * One key of `fetch_keys` (src/command.c:179-198): checked, decoded into
   * the blob after the keys already read, and compared with the first key's
   * sector. On rejection the whole list is void.
   */
  method ReadKey(keys: string, keyLn: nat, p: nat, keyblob: array<byte>, size: nat, ghost got: seq<seq<byte>>)
    returns (accepted: bool, p': nat, size': nat, ghost got': seq<seq<byte>>)
    requires keyLn > 0 && p < |keys| && !IsSeparator(keys[p])
    requires Fetched(keys, keyLn, p, keyblob[..], size, got)
    modifies keyblob
    ensures accepted ==> p < p' && Fetched(keys, keyLn, p', keyblob[..], size', got')
    ensures !accepted ==> ParseKeys(keys, keyLn) == []
    ensures !HexPrefix(keys[p..], 2 * keyLn) ==> !accepted
    ensures accepted ==> p' == p + 2 * keyLn && size' == size + keyLn
  {
    var ok := ValidHexLn(keys[p..], 2 * keyLn);
    if !ok {
      MalformedRejected(keys, keyLn, p, got);
      return false, p, size, got;
    }
    accepted, p', size', got' := StoreKey(keys, keyLn, p, keyblob, size, got);
  }

  /**
   * A well-formed key (src/command.c:186-197): decoded into the blob after
   * the keys already read, and kept only when it lies in the first key's
   * sector.
   */
  method StoreKey(keys: string, keyLn: nat, p: nat, keyblob: array<byte>, size: nat, ghost got: seq<seq<byte>>)
    returns (accepted: bool, p': nat, size': nat, ghost got': seq<seq<byte>>)
    requires keyLn > 0 && p < |keys| && !IsSeparator(keys[p]) && HexPrefix(keys[p..], 2 * keyLn)
    requires Fetched(keys, keyLn, p, keyblob[..], size, got)
    modifies keyblob
    ensures accepted ==> p < p' && Fetched(keys, keyLn, p', keyblob[..], size', got')
    ensures !accepted ==> ParseKeys(keys, keyLn) == []
    ensures accepted ==> p' == p + 2 * keyLn && size' == size + keyLn && got' == got + [HexToBin(keys[p..p + 2 * keyLn])]
    ensures size + keyLn <= keyblob.Length && keyblob[size..size + keyLn] == HexToBin(keys[p..p + 2 * keyLn])
    ensures accepted <==> p == 0 || keyblob[0] == keyblob[size]
  {
    ghost var before := keyblob[..];
    KeyFits(|keys|, keyLn, p, |before|, size);
    var hex := keys[p..p + 2 * keyLn];
    ghost var key := HexToBin(hex);
    assert |hex| / 2 == keyLn;
    HexToBinInto(hex, keyblob, size);
    ghost var after := keyblob[..];
    assert after[..size] == before[..size] && after[size..size + keyLn] == key;
    // first byte must equal the first key's
    if p != 0 && keyblob[0] != keyblob[size] {
      MismatchRejected(keys, keyLn, p, before, after, size, got, key);
      return false, p, size, got;
    }
    accepted, p', size', got' := true, p + 2 * keyLn, size + keyLn, got + [key];
    KeyAccepted(keys, keyLn, p, before, after, size, got, key, p', size', got');
  }

  /**
   * The state of `fetch_keys` after reading `keys[..p]`: the keys read so
   * far, `got`, are packed in `blob[..size]`, lie in one sector, and precede
   * whatever the rest of the list scans to.
   */
  ghost predicate Fetched(keys: string, keyLn: nat, p: nat, blob: seq<byte>, size: nat, got: seq<seq<byte>>)
    requires keyLn > 0
  {
    && p <= |keys| && 2 * size <= p && |blob| == |keys| / 2
    && Packed(blob, size, got, keyLn)
    && ScannedUpTo(keys, keyLn, p, got)
  }

  /** `blob[..size]` holds the keys `got`, of one sector, one after the other. */
  ghost predicate Packed(blob: seq<byte>, size: nat, got: seq<seq<byte>>, keyLn: nat) {
    && size <= |blob| && size == |Flatten(got)| && blob[..size] == Flatten(got)
    && (forall i :: 0 <= i < |got| ==> |got[i]| == keyLn)
    && SameFirstByte(got)
    && (got != [] ==> size > 0 && blob[0] == got[0][0])
  }

  /** The keys `got` come first in the scan of the list, followed by the scan of `keys[p..]`. */
  ghost predicate ScannedUpTo(keys: string, keyLn: nat, p: nat, got: seq<seq<byte>>)
    requires keyLn > 0 && p <= |keys|
  {
    Scan(keys, keyLn, 2 * keyLn) == Prepend(got, Scan(keys[p..], keyLn, 2 * keyLn))
  }

  lemma FetchStart(keys: string, keyLn: nat, blob: seq<byte>)
    requires keyLn > 0 && |blob| == |keys| / 2
    ensures Fetched(keys, keyLn, 0, blob, 0, [])
  {
    PrependNothing(Scan(keys, keyLn, 2 * keyLn));
    assert keys[0..] == keys;
  }

  lemma SeparatorSkipped(keys: string, keyLn: nat, p: nat, blob: seq<byte>, size: nat, got: seq<seq<byte>>)
    requires keyLn > 0 && Fetched(keys, keyLn, p, blob, size, got)
    requires p < |keys| && IsSeparator(keys[p])
    ensures Fetched(keys, keyLn, p + 1, blob, size, got)
  {
    assert keys[p..][1..] == keys[p + 1..];
  }

  /** A well-formed key fits the blob after the keys already read. */
  lemma KeyFits(keysLn: nat, keyLn: nat, p: nat, blobLn: nat, size: nat)
    requires p <= keysLn && 2 * size <= p && blobLn == keysLn / 2
    requires 2 * keyLn <= keysLn - p
    ensures p + 2 * keyLn <= keysLn && size + (2 * keyLn) / 2 <= blobLn
  {
  }

  /** The state update of `fetch_keys` when a key is accepted. */
  lemma KeyAccepted(keys: string, keyLn: nat, p: nat, before: seq<byte>, blob: seq<byte>, size: nat, got: seq<seq<byte>>,
                     key: seq<byte>, p': nat, size': nat, got': seq<seq<byte>>)
    requires keyLn > 0 && Fetched(keys, keyLn, p, before, size, got)
    requires p < |keys| && !IsSeparator(keys[p]) && HexPrefix(keys[p..], 2 * keyLn)
    requires key == HexToBin(keys[p..p + 2 * keyLn])
    requires size + keyLn <= |blob| == |before| && blob[..size] == before[..size] && blob[size..size + keyLn] == key
    requires !(p != 0 && blob[0] != blob[size])
    requires p' == p + 2 * keyLn && size' == size + keyLn && got' == got + [key]
    ensures Fetched(keys, keyLn, p', blob, size', got')
  {
    ScannedKey(keys, keyLn, p, got, key);
    PackedKey(before, blob, size, got, key, keyLn);
  }

  /** The scan of the list moves past one key. */
  lemma ScannedKey(keys: string, keyLn: nat, p: nat, got: seq<seq<byte>>, key: seq<byte>)
    requires keyLn > 0 && p < |keys| && ScannedUpTo(keys, keyLn, p, got)
    requires !IsSeparator(keys[p]) && HexPrefix(keys[p..], 2 * keyLn)
    requires key == HexToBin(keys[p..p + 2 * keyLn])
    ensures p + 2 * keyLn <= |keys| && ScannedUpTo(keys, keyLn, p + 2 * keyLn, got + [key])
  {
    assert Chars(keys[p..], 2 * keyLn) == keys[p..p + 2 * keyLn];
    assert keys[p..][2 * keyLn..] == keys[p + 2 * keyLn..];
    ScanKeyStep(keys[p..], keyLn, got, key);
  }

  /** The blob, rewritten after the keys already packed, packs one more. */
  lemma PackedKey(before: seq<byte>, blob: seq<byte>, size: nat, got: seq<seq<byte>>, key: seq<byte>, keyLn: nat)
    requires keyLn > 0 && Packed(before, size, got, keyLn) && |key| == keyLn
    requires size + keyLn <= |blob| == |before| && blob[..size] == before[..size] && blob[size..size + keyLn] == key
    requires got != [] ==> blob[size] == blob[0]
    ensures Packed(blob, size + keyLn, got + [key], keyLn)
  {
    assert got != [] ==> blob[0] == before[0];
    BlobExtended(blob, size, got, key, keyLn);
  }

  /** The blob holds one more key. */
  lemma BlobExtended(blob: seq<byte>, size: nat, got: seq<seq<byte>>, key: seq<byte>, keyLn: nat)
    requires keyLn > 0 && size + keyLn <= |blob| && |key| == keyLn
    requires blob[..size] == Flatten(got) && size == |Flatten(got)|
    requires blob[size..size + keyLn] == key
    requires forall i :: 0 <= i < |got| ==> |got[i]| == keyLn
    requires SameFirstByte(got)
    requires got != [] ==> size > 0 && blob[0] == got[0][0]
    requires got != [] ==> blob[size] == blob[0]
    ensures blob[..size + keyLn] == Flatten(got + [key]) && size + keyLn == |Flatten(got + [key])|
    ensures forall i :: 0 <= i < |got + [key]| ==> |(got + [key])[i]| == keyLn
    ensures SameFirstByte(got + [key])
    ensures blob[0] == (got + [key])[0][0]
  {
    PackedSnoc(blob, size, got, key);
    SameSectorSnoc(got, key, blob[0]);
  }

  lemma PackedSnoc(blob: seq<byte>, size: nat, got: seq<seq<byte>>, key: seq<byte>)
    requires size + |key| <= |blob|
    requires blob[..size] == Flatten(got) && size == |Flatten(got)|
    requires blob[size..size + |key|] == key
    ensures blob[..size + |key|] == Flatten(got + [key]) && size + |key| == |Flatten(got + [key])|
  {
    assert blob[..size + |key|] == blob[..size] + blob[size..size + |key|];
    FlattenSnoc(got, key);
  }

  /** A key of the sector `b` joins keys of that sector. */
  lemma SameSectorSnoc(got: seq<seq<byte>>, key: seq<byte>, b: byte)
    requires |key| > 0 && SameFirstByte(got)
    requires got != [] ==> |got[0]| > 0 && got[0][0] == b
    requires key[0] == b
    ensures forall i :: 0 <= i < |got| ==> (got + [key])[i] == got[i]
    ensures SameFirstByte(got + [key]) && (got + [key])[0][0] == b
  {
    var ks := got + [key];
    assert ks[|got|] == key;
    forall i | 0 <= i < |ks|
      ensures |ks[0]| > 0 && |ks[i]| > 0 && ks[i][0] == ks[0][0]
    {
      if i < |got| {
        assert ks[i] == got[i];
      }
    }
  }

  lemma MalformedRejected(keys: string, keyLn: nat, p: nat, got: seq<seq<byte>>)
    requires keyLn > 0 && p < |keys| && !IsSeparator(keys[p]) && !HexPrefix(keys[p..], 2 * keyLn)
    requires Scan(keys, keyLn, 2 * keyLn) == Prepend(got, Scan(keys[p..], keyLn, 2 * keyLn))
    ensures ParseKeys(keys, keyLn) == []
  {
  }

  /** A key of another sector than the first: the list is rejected. */
  lemma MismatchRejected(keys: string, keyLn: nat, p: nat, before: seq<byte>, blob: seq<byte>, size: nat, got: seq<seq<byte>>,
                         key: seq<byte>)
    requires keyLn > 0 && p < |keys| && ScannedUpTo(keys, keyLn, p, got)
    requires size == |Flatten(got)| && SameFirstByte(got) && (got != [] ==> 0 < size <= |before| && before[0] == got[0][0])
    requires !IsSeparator(keys[p]) && HexPrefix(keys[p..], 2 * keyLn)
    requires size + keyLn <= |blob| == |before| && blob[..size] == before[..size]
    requires key == HexToBin(keys[p..p + 2 * keyLn]) && blob[size..size + keyLn] == key
    requires blob[0] != blob[size]
    ensures ParseKeys(keys, keyLn) == []
  {
    assert Chars(keys[p..], 2 * keyLn) == keys[p..p + 2 * keyLn];
    assert keys[p..][2 * keyLn..] == keys[p + 2 * keyLn..];
    ScanKeyStep(keys[p..], keyLn, got, key);
    assert got != [] && key[0] == blob[size];
    DifferentSector(keys, keyLn, got, key, Scan(keys[p + 2 * keyLn..], keyLn, 2 * keyLn));
  }

  lemma AllRead(keys: string, keyLn: nat, p: nat, blob: seq<byte>, size: nat, got: seq<seq<byte>>)
    requires keyLn > 0 && Fetched(keys, keyLn, p, blob, size, got) && p >= |keys|
    ensures size <= |blob| && blob[..size] == ParseKeys(keys, keyLn)
  {
    assert keys[p..] == [];
    assert got + [] == got;
  }

  lemma PrependNothing(r: Option<seq<seq<byte>>>)
    ensures Prepend([], r) == r
  {
    if r.Some? {
      assert [] + r.value == r.value;
    }
  }

  /** One key read: the keys read so far grow by it, the rest of the list is scanned on. */
  lemma ScanKeyStep(t: string, keyLn: nat, got: seq<seq<byte>>, key: seq<byte>)
    requires keyLn > 0 && t != [] && !IsSeparator(t[0]) && HexPrefix(t, 2 * keyLn)
    requires key == HexToBin(Chars(t, 2 * keyLn))
    ensures Prepend(got, Scan(t, keyLn, 2 * keyLn)) == Prepend(got + [key], Scan(t[2 * keyLn..], keyLn, 2 * keyLn))
  {
    assert Min(2 * keyLn, |t|) == 2 * keyLn;
    var rest := Scan(t[2 * keyLn..], keyLn, 2 * keyLn);
    if rest.Some? {
      assert got + ([key] + rest.value) == (got + [key]) + rest.value;
    }
  }

  /** `ldb_hex_to_bin(hex, strlen, out + at)`: the decoded bytes are written into `out` from `at` on. */
  method HexToBinInto(hex: string, out: array<byte>, at: nat)
    requires at + |hex| / 2 <= out.Length
    modifies out
    ensures out[..at] == old(out[..at])
    ensures out[at..at + |hex| / 2] == HexToBin(hex)
    ensures out[at + |hex| / 2..] == old(out[at + |hex| / 2..])
  {
    HexToBinAt(hex);
    forall j | 0 <= j < |hex| / 2 {
      out[at + j] := HexByte(hex[2 * j], hex[2 * j + 1]);
    }
  }

  lemma {:induction false} HexToBinAt(h: string)
    ensures forall j :: 0 <= j < |h| / 2 ==> HexToBin(h)[j] == HexByte(h[2 * j], h[2 * j + 1])
  {
    if |h| >= 2 {
      HexToBinAt(h[2..]);
    }
  }

  lemma DifferentSector(keys: string, keyLn: nat, got: seq<seq<byte>>, key: seq<byte>, rest: Option<seq<seq<byte>>>)
    requires keyLn > 0
    requires got != [] && |got[0]| > 0 && |key| > 0 && key[0] != got[0][0]
    requires Scan(keys, keyLn, 2 * keyLn) == Prepend(got + [key], rest)
    ensures ParseKeys(keys, keyLn) == []
  {
    if rest.Some? {
      var ks := got + [key] + rest.value;
      assert ks[|got|] == key;
    }
  }

  // ---------------------------------------------------------------------
  // What the parsed blob means
  // ---------------------------------------------------------------------

  /** The characters of a key list other than the separators ' ' and ','. */
  function Unseparated(t: string): (u: string)
    ensures |u| <= |t|
  {
    if t == [] then []
    else (if IsSeparator(t[0]) then [] else [t[0]]) + Unseparated(t[1..])
  }

  /** A key list written the way the console prints keys: lowercase hex, separated by commas. */
  function KeyList(ks: seq<seq<byte>>): string {
    if ks == [] then []
    else if |ks| == 1 then BinToHex(ks[0])
    else BinToHex(ks[0]) + "," + KeyList(ks[1..])
  }

  lemma {:induction false} UnseparatedAppend(a: string, b: string)
    ensures Unseparated(a + b) == Unseparated(a) + Unseparated(b)
  {
    if a != [] {
      assert (a + b)[0] == a[0];
      assert (a + b)[1..] == a[1..] + b;
      UnseparatedAppend(a[1..], b);
      var head := if IsSeparator(a[0]) then [] else [a[0]];
      assert Unseparated(a + b) == head + (Unseparated(a[1..]) + Unseparated(b));
      assert Unseparated(a) == head + Unseparated(a[1..]);
    } else {
      assert a + b == b;
    }
  }

  lemma {:induction false} UnseparatedHex(h: string)
    requires forall i :: 0 <= i < |h| ==> IsLowerHex(h[i])
    ensures Unseparated(h) == h
  {
    if h != [] {
      UnseparatedHex(h[1..]);
      assert h == [h[0]] + h[1..];
    }
  }

  lemma {:induction false} FlattenCons(k: seq<byte>, ks: seq<seq<byte>>)
    ensures Flatten([k] + ks) == k + Flatten(ks)
    decreases |ks|
  {
    if ks != [] {
      var init := ks[..|ks| - 1];
      assert ([k] + ks)[..|ks|] == [k] + init;
      FlattenCons(k, init);
      assert ks == init + [ks[|ks| - 1]];
    } else {
      assert [k] + ks == [] + [k];
      FlattenSnoc([], k);
    }
  }

  lemma {:induction false} FlattenLength(ks: seq<seq<byte>>, keyLn: nat)
    requires forall i :: 0 <= i < |ks| ==> |ks[i]| == keyLn
    ensures |Flatten(ks)| == keyLn * |ks|
  {
    if ks != [] {
      FlattenLength(ks[..|ks| - 1], keyLn);
      assert keyLn * |ks| == keyLn * (|ks| - 1) + keyLn;
    }
  }

  lemma {:induction false} BinToHexAppend(a: seq<byte>, b: seq<byte>)
    ensures BinToHex(a + b) == BinToHex(a) + BinToHex(b)
  {
    if a != [] {
      assert (a + b)[0] == a[0];
      assert (a + b)[1..] == a[1..] + b;
      BinToHexAppend(a[1..], b);
      var head := [HexDigit(a[0] / 16), HexDigit(a[0] % 16)];
      assert BinToHex(a + b) == head + (BinToHex(a[1..]) + BinToHex(b));
      assert BinToHex(a) == head + BinToHex(a[1..]);
    } else {
      assert a + b == b;
    }
  }

  /** A key list that scans prints back, key after key, as its non-separator characters. */
  lemma {:induction false} ScanSound(t: string, keyLn: nat)
    requires keyLn > 0 && Scan(t, keyLn, 2 * keyLn).Some?
    ensures BinToHex(Flatten(Scan(t, keyLn, 2 * keyLn).value)) == Unseparated(t)
    decreases |t|
  {
    if t == [] {
    } else if IsSeparator(t[0]) {
      ScanSound(t[1..], keyLn);
    } else {
      var n := 2 * keyLn;
      assert Min(n, |t|) == n && Chars(t, n) == t[..n];
      ScanSound(t[n..], keyLn);
      KeySound(t, n, HexToBin(t[..n]), Scan(t[n..], keyLn, n).value);
    }
  }

  /** The step of `ScanSound` for a list that starts with a key: the key prints back as itself. */
  lemma KeySound(t: string, n: nat, key: seq<byte>, rest: seq<seq<byte>>)
    requires n <= |t| && n % 2 == 0 && forall i :: 0 <= i < n ==> IsLowerHex(t[i])
    requires key == HexToBin(t[..n])
    requires BinToHex(Flatten(rest)) == Unseparated(t[n..])
    ensures BinToHex(Flatten([key] + rest)) == Unseparated(t)
  {
    var h, u := t[..n], t[n..];
    assert forall i :: 0 <= i < |h| ==> IsLowerHex(h[i]);
    SpellKeys(key, rest);
    BinToHexOfHexToBin(h);
    assert t == h + u;
    UnseparatedHexThen(h, u);
  }

  lemma SpellKeys(key: seq<byte>, rest: seq<seq<byte>>)
    ensures BinToHex(Flatten([key] + rest)) == BinToHex(key) + BinToHex(Flatten(rest))
  {
    FlattenCons(key, rest);
    BinToHexAppend(key, Flatten(rest));
  }

  lemma UnseparatedHexThen(h: string, u: string)
    requires forall i :: 0 <= i < |h| ==> IsLowerHex(h[i])
    ensures Unseparated(h + u) == h + Unseparated(u)
  {
    UnseparatedAppend(h, u);
    UnseparatedHex(h);
  }

  /**
   * Soundness of the corrected parser: a non-empty blob is exactly the keys
   * of the list, in order, with nothing else in the list but separators.
   */
  lemma ParseKeysSound(s: string, keyLn: nat)
    requires keyLn > 0
    ensures ParseKeys(s, keyLn) != [] ==> BinToHex(ParseKeys(s, keyLn)) == Unseparated(s)
  {
    if Scan(s, keyLn, 2 * keyLn).Some? {
      ScanSound(s, keyLn);
    }
  }

  /** A list holding anything but lowercase hex digits and separators is rejected as a whole. */
  lemma ParseKeysRejectsNonHex(s: string, keyLn: nat, i: nat)
    requires keyLn > 0 && i < |Unseparated(s)| && !IsLowerHex(Unseparated(s)[i])
    ensures ParseKeys(s, keyLn) == []
  {
    ParseKeysSound(s, keyLn);
    BinToHexIsHex(ParseKeys(s, keyLn));
  }

  /** Every `keyLn`-byte block of `r` starts with the same byte as the first. */
  predicate OneSector(r: seq<byte>, keyLn: nat)
    requires keyLn > 0
  {
    forall i :: 0 <= i < |r| && i % keyLn == 0 ==> r[i] == r[0]
  }

  /** The blob is a whole number of keys, fits the buffer, and every key starts with the first key's byte. */
  lemma ParseKeysBlocks(s: string, keyLn: nat)
    requires keyLn > 0
    ensures |ParseKeys(s, keyLn)| % keyLn == 0
    ensures 2 * |ParseKeys(s, keyLn)| <= |s|
    ensures OneSector(ParseKeys(s, keyLn), keyLn)
  {
    var r := Scan(s, keyLn, 2 * keyLn);
    if r.Some? && SameFirstByte(r.value) {
      assert ParseKeys(s, keyLn) == Flatten(r.value);
      FlattenBlocks(r.value, keyLn);
      ScanSound(s, keyLn);
    } else {
      assert ParseKeys(s, keyLn) == [];
      MultipleMod(keyLn, 0);
      assert keyLn * 0 == 0;
    }
  }

  lemma FlattenBlocks(ks: seq<seq<byte>>, keyLn: nat)
    requires keyLn > 0 && forall i :: 0 <= i < |ks| ==> |ks[i]| == keyLn
    requires SameFirstByte(ks)
    ensures |Flatten(ks)| % keyLn == 0
    ensures OneSector(Flatten(ks), keyLn)
  {
    FlattenLength(ks, keyLn);
    MultipleMod(keyLn, |ks|);
    FlattenSectors(ks, keyLn);
  }

  lemma {:induction false} FlattenSectors(ks: seq<seq<byte>>, keyLn: nat)
    requires keyLn > 0 && forall i :: 0 <= i < |ks| ==> |ks[i]| == keyLn
    requires SameFirstByte(ks)
    ensures forall i :: 0 <= i < |Flatten(ks)| && i % keyLn == 0 ==> Flatten(ks)[i] == ks[0][0]
    ensures OneSector(Flatten(ks), keyLn)
  {
    if ks != [] {
      var init := ks[..|ks| - 1];
      var last := ks[|ks| - 1];
      FlattenSectors(init, keyLn);
      FlattenLength(init, keyLn);
      var f := Flatten(ks);
      assert f == Flatten(init) + last;
      forall i | 0 <= i < |f| && i % keyLn == 0
        ensures f[i] == ks[0][0]
      {
        if i >= |Flatten(init)| {
          LastBlock(i, keyLn, |init|);
          assert f[i] == last[0];
        } else {
          assert f[i] == Flatten(init)[i];
        }
      }
      assert f[0] == ks[0][0];
    }
  }

  lemma MultipleMod(k: nat, n: nat)
    requires k > 0
    ensures (k * n) % k == 0
  {
    var q, r := (k * n) / k, (k * n) % k;
    assert k * n == k * q + r && 0 <= r < k;
    var d := n - q;
    assert r == k * d;
    if d >= 1 {
      MulAtLeast(k, d);
    }
  }

  /** The only multiple of `k` in `[k * n, k * n + k)` is `k * n`. */
  lemma LastBlock(i: nat, k: nat, n: nat)
    requires k > 0 && i % k == 0 && k * n <= i < k * n + k
    ensures i == k * n
  {
    var q := i / k;
    assert i == k * q;
    var d := q - n;
    assert k * q == k * n + k * d;
    if d >= 1 {
      MulAtLeast(k, d);
    } else if d <= -1 {
      MulAtLeast(k, -d);
      assert k * d == -(k * -d);
    }
  }

  lemma {:induction false} MulAtLeast(k: nat, d: nat)
    requires d >= 1
    ensures k * d >= k
  {
    if d > 1 {
      MulAtLeast(k, d - 1);
      assert k * d == k * (d - 1) + k;
    }
  }

  lemma {:induction false} ScanKeyList(ks: seq<seq<byte>>, keyLn: nat)
    requires keyLn > 0 && forall i :: 0 <= i < |ks| ==> |ks[i]| == keyLn
    ensures Scan(KeyList(ks), keyLn, 2 * keyLn) == Some(ks)
  {
    if ks != [] {
      var h := BinToHex(ks[0]);
      HexToBinOfBinToHex(ks[0]);
      BinToHexIsHex(ks[0]);
      if |ks| == 1 {
        ScanHexThen(h, [], keyLn);
        assert KeyList(ks) == h + [];
        assert [ks[0]] + [] == ks;
      } else {
        ScanKeyList(ks[1..], keyLn);
        ScanCommaThen(KeyList(ks[1..]), keyLn);
        ScanHexThen(h, "," + KeyList(ks[1..]), keyLn);
        assert KeyList(ks) == h + ("," + KeyList(ks[1..]));
        assert [ks[0]] + ks[1..] == ks;
      }
    }
  }

  /** A comma before a list is skipped. */
  lemma ScanCommaThen(t: string, keyLn: nat)
    requires keyLn > 0
    ensures Scan("," + t, keyLn, 2 * keyLn) == Scan(t, keyLn, 2 * keyLn)
  {
    assert ("," + t)[1..] == t;
  }

  /** A list that starts with a well-formed key scans to that key, then the rest of the list. */
  lemma ScanHexThen(h: string, tail: string, keyLn: nat)
    requires keyLn > 0 && |h| == 2 * keyLn && forall i :: 0 <= i < |h| ==> IsLowerHex(h[i])
    ensures Scan(h + tail, keyLn, 2 * keyLn) == Prepend([HexToBin(h)], Scan(tail, keyLn, 2 * keyLn))
  {
    var t := h + tail;
    assert t[0] == h[0] && IsLowerHex(h[0]);
    assert HexPrefix(t, 2 * keyLn);
    assert Min(2 * keyLn, |t|) == 2 * keyLn;
    assert t[2 * keyLn..] == tail;
    assert Chars(t, 2 * keyLn) == h;
  }

  /** Completeness: keys of one sector, printed as a comma-separated list, are parsed back. */
  lemma ParseKeysComplete(ks: seq<seq<byte>>, keyLn: nat)
    requires keyLn > 0 && forall i :: 0 <= i < |ks| ==> |ks[i]| == keyLn
    requires SameFirstByte(ks)
    ensures ParseKeys(KeyList(ks), keyLn) == Flatten(ks)
  {
    ScanKeyList(ks, keyLn);
  }

  /** Keys from different sectors in one list: the whole list is rejected. */
  lemma ParseKeysMixedSectors(ks: seq<seq<byte>>, keyLn: nat, j: nat)
    requires keyLn > 0 && forall i :: 0 <= i < |ks| ==> |ks[i]| == keyLn
    requires j < |ks| && ks[j][0] != ks[0][0]
    ensures ParseKeys(KeyList(ks), keyLn) == []
  {
    ScanKeyList(ks, keyLn);
  }

  // ---------------------------------------------------------------------
  // The check as written
  // ---------------------------------------------------------------------

  /** As written, a key whose second half is not hex is accepted; the corrected parser rejects it. */
  lemma AsWrittenAcceptsNonHex()
    ensures ParseKeysAsWritten("aabbzzzz", 4) == [0xaa, 0xbb, 0, 0]
    ensures ParseKeys("aabbzzzz", 4) == []
  {
    var t := "aabbzzzz";
    assert HexPrefix(t, 4);
    assert !HexPrefix(t, 8) by { assert !IsLowerHex(t[4]); }
    assert t[Min(8, |t|)..] == [];
    assert Chars(t, 8) == t;
    assert HexToBin(t) == [0xaa, 0xbb, 0, 0] by {
      assert t[2..][2..][2..][2..] == [];
    }
    assert Scan(t[8..], 4, 4) == Some([]);
    assert Scan(t, 4, 4) == Some([HexToBin(Chars(t, 8))] + []);
    assert [HexToBin(Chars(t, 8))] + [] == [[0xaa, 0xbb, 0, 0]];
    assert Flatten([[0xaa, 0xbb, 0, 0]]) == [0xaa, 0xbb, 0, 0] by {
      FlattenSnoc([], [0xaa, 0xbb, 0, 0]);
      assert [] + [[0xaa, 0xbb, 0, 0]] == [[0xaa, 0xbb, 0, 0]];
    }
  }

  /**
   * As written, a half-length key passes the check and `key_ln` bytes are
   * decoded into a blob allocated for `strlen / 2` bytes: more than fit.
   */
  lemma AsWrittenOverrunsBlob()
    ensures |ParseKeysAsWritten("aabb", 4)| == 4 > |"aabb"| / 2
    ensures ParseKeys("aabb", 4) == []
  {
    var t := "aabb";
    assert HexPrefix(t, 4);
    assert !HexPrefix(t, 8);
    LastKeyCut(t, 4, 4);
  }

  /** A key cut short by the end of the list: it is read anyway, padded with the terminator. */
  lemma LastKeyCut(t: string, keyLn: nat, checkLn: nat)
    requires keyLn > 0 && t != [] && !IsSeparator(t[0]) && HexPrefix(t, checkLn) && |t| <= 2 * keyLn
    ensures Scan(t, keyLn, checkLn) == Some([HexToBin(Chars(t, 2 * keyLn))])
    ensures |Flatten(Scan(t, keyLn, checkLn).value)| == keyLn
  {
    assert t[Min(2 * keyLn, |t|)..] == [];
    var key := HexToBin(Chars(t, 2 * keyLn));
    assert [key] + [] == [key];
    FlattenSnoc([], key);
    assert [] + [key] == [key];
  }
}
