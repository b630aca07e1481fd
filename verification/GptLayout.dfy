/**
  Raw GPT canonicality.  Field positions follow sections 5.2.3, 5.3.2 and 5.3.3 of the
  UEFI Specification 2.10.
*/
module GptLayout {
  import opened Machine
  import opened Sectors
  import LE = LittleEndian

  const DISK_BYTES: nat := 0x400_0000
  const ESP_FIRST_LBA: u64 := 2048
  const ESP_LAST_LBA: u64 := 129023
  const GPT_ENTRY_BYTES: nat := 128
  const GPT_ENTRY_COUNT: nat := 128
  const GPT_ENTRY_ARRAY_SECTORS: u64 := 32
  const BACKUP_GPT_ENTRIES_LBA: u64 := 131039
  const BACKUP_GPT_HEADER_LBA: u64 := 131071

  type Image = s: Slice | |s| == 0x400_0000 witness seq(0x400_0000, _ => 0)

  const PROTECTIVE_ENTRY: seq<u8> := [
    0x00, 0x00, 0x02, 0x00, 0xee, 0xff, 0xff, 0xff, 0x01, 0x00, 0x00, 0x00, 0xff, 0xff, 0x01, 0x00]
  /** `EFI PART` */
  const SIGNATURE: seq<u8> := [0x45, 0x46, 0x49, 0x20, 0x50, 0x41, 0x52, 0x54]

  predicate ValidateRawGptHeader(header: seq<u8>, currentLba: u64, backupLba: u64, entriesLba: u64)
    requires |header| == SECTOR
  {
    && header[..8] == SIGNATURE
    && LE.ReadU32(header, 8) == Some(0x1_0000)
    && LE.ReadU32(header, 12) == Some(92)
    && LE.ReadU32(header, 20) == Some(0)
    && LE.ReadU64(header, 24) == Some(currentLba)
    && LE.ReadU64(header, 32) == Some(backupLba)
    && LE.ReadU64(header, 40) == Some(34)
    && LE.ReadU64(header, 48) == Some(BACKUP_GPT_ENTRIES_LBA - 1)
    && LE.ReadU64(header, 72) == Some(entriesLba)
    && LE.ReadU32(header, 80) == Some(128)
    && LE.ReadU32(header, 84) == Some(128)
    && AllZero(header[92..])
  }

  predicate ValidateRawGptLayout(image: Image) {
    && AllZero(image[..446])
    && image[446..462] == PROTECTIVE_ENTRY
    && AllZero(image[462..510])
    && image[510..512] == [0x55, 0xaa]
    && SectorAt(image, 1).Some? && SectorAt(image, BACKUP_GPT_HEADER_LBA).Some?
    && (var primaryHeader, backupHeader := SectorAt(image, 1).value, SectorAt(image, BACKUP_GPT_HEADER_LBA).value;
        && ValidateRawGptHeader(primaryHeader, 1, BACKUP_GPT_HEADER_LBA, 2)
        && ValidateRawGptHeader(backupHeader, BACKUP_GPT_HEADER_LBA, 1, BACKUP_GPT_ENTRIES_LBA)
        && primaryHeader[56..72] == backupHeader[56..72]
        && primaryHeader[88..92] == backupHeader[88..92])
    && (var primaryEntries := LbaRange(image, 2, 2 + GPT_ENTRY_ARRAY_SECTORS);
        var backupEntries := LbaRange(image, BACKUP_GPT_ENTRIES_LBA, BACKUP_GPT_ENTRIES_LBA + GPT_ENTRY_ARRAY_SECTORS);
        && primaryEntries.Some? && backupEntries.Some?
        && primaryEntries.value == backupEntries.value
        && (exists i | 0 <= i < GPT_ENTRY_BYTES :: primaryEntries.value[i] != 0)
        && AllZero(primaryEntries.value[GPT_ENTRY_BYTES..GPT_ENTRY_COUNT * GPT_ENTRY_BYTES]))
    && (var before := LbaRange(image, 34, ESP_FIRST_LBA); before.Some? && AllZero(before.value))
    && (var after := LbaRange(image, ESP_LAST_LBA + 1, BACKUP_GPT_ENTRIES_LBA); after.Some? && AllZero(after.value))
  }

  // ---------------------------------------------------------------------------------
  // The one value each byte may take, sector by sector.
  // ---------------------------------------------------------------------------------

  /** The byte of a canonical header at `j`; `None` for the header CRC, the disk GUID and the entry-array CRC. */
  function HeaderByte(j: nat, currentLba: u64, backupLba: u64, entriesLba: u64): Option<u8>
    requires j < SECTOR
  {
    if j < 8 then Some([0x45, 0x46, 0x49, 0x20, 0x50, 0x41, 0x52, 0x54][j])
    else if j < 12 then Some(LE.Bytes(0x1_0000, 4)[j - 8])
    else if j < 16 then Some(LE.Bytes(92, 4)[j - 12])
    else if j < 20 then None
    else if j < 24 then Some(LE.Bytes(0, 4)[j - 20])
    else if j < 32 then Some(LE.Bytes(currentLba, 8)[j - 24])
    else if j < 40 then Some(LE.Bytes(backupLba, 8)[j - 32])
    else if j < 48 then Some(LE.Bytes(34, 8)[j - 40])
    else if j < 56 then Some(LE.Bytes(131038, 8)[j - 48])
    else if j < 72 then None
    else if j < 80 then Some(LE.Bytes(entriesLba, 8)[j - 72])
    else if j < 84 then Some(LE.Bytes(128, 4)[j - 80])
    else if j < 88 then Some(LE.Bytes(128, 4)[j - 84])
    else if j < 92 then None
    else Some(0)
  }

  function MbrByte(j: nat): u8
    requires j < SECTOR
  {
    if j < 446 then 0
    else if j < 462 then [0, 0, 2, 0, 0xee, 0xff, 0xff, 0xff, 1, 0, 0, 0, 0xff, 0xff, 1, 0][j - 446]
    else if j < 510 then 0
    else if j == 510 then 0x55 else 0xaa
  }

  /** The byte every accepted image holds at `i`; `None` where images may differ. */
  function FixedByte(i: nat): Option<u8>
    requires i < DISK_BYTES
  {
    if i < 512 then Some(MbrByte(i))
    else if i < 1024 then HeaderByte(i - 512, 1, BACKUP_GPT_HEADER_LBA, 2)
    else if i < 1152 then None
    else if i < 2048 * 512 then Some(0)
    else if i < 129024 * 512 then None
    else if i < 131039 * 512 then Some(0)
    else if i < 131039 * 512 + 128 then None
    else if i < 131071 * 512 then Some(0)
    else HeaderByte(i - 131071 * 512, BACKUP_GPT_HEADER_LBA, 1, BACKUP_GPT_ENTRIES_LBA)
  }

  /** Every fixed byte has its value. */
  predicate FixedBytes(image: Image) {
    forall i: nat | i < DISK_BYTES :: HoldsFixed(image, i)
  }

  predicate HoldsFixed(image: Image, i: nat)
    requires i < DISK_BYTES
  {
    FixedByte(i).Some? ==> image[i] == FixedByte(i).value
  }

  /** The two copies agree on what may vary outside the ESP, and the one partition entry is not empty. */
  predicate SharedFields(image: Image) {
    && image[512 + 56..512 + 72] == image[131071 * 512 + 56..131071 * 512 + 72]
    && image[512 + 88..512 + 92] == image[131071 * 512 + 88..131071 * 512 + 92]
    && image[1024..1152] == image[131039 * 512..131039 * 512 + 128]
    && exists i | 1024 <= i < 1152 :: image[i] != 0
  }

  predicate HeaderFields(h: seq<u8>, currentLba: u64, backupLba: u64, entriesLba: u64)
    requires |h| == SECTOR
  {
    && h[0..8] == SIGNATURE
    && h[8..12] == LE.Bytes(0x1_0000, 4)
    && h[12..16] == LE.Bytes(92, 4)
    && h[20..24] == LE.Bytes(0, 4)
    && h[24..32] == LE.Bytes(currentLba, 8)
    && h[32..40] == LE.Bytes(backupLba, 8)
    && h[40..48] == LE.Bytes(34, 8)
    && h[48..56] == LE.Bytes(131038, 8)
    && h[72..80] == LE.Bytes(entriesLba, 8)
    && h[80..84] == LE.Bytes(128, 4)
    && h[84..88] == LE.Bytes(128, 4)
    && AllZero(h[92..])
  }

  lemma HeaderReadsAreBytes(h: seq<u8>, currentLba: u64, backupLba: u64, entriesLba: u64)
    requires |h| == SECTOR
    ensures ValidateRawGptHeader(h, currentLba, backupLba, entriesLba)
       <==> HeaderFields(h, currentLba, backupLba, entriesLba)
  {
    hide LE.Bytes, LE.Read, LE.Pow256, LE.ReadU32, LE.ReadU64, AllZero;
    LE.Widths();
    assert h[..8] == h[0..8];
    LE.FieldIs(h, 8, 4, 0x1_0000);
    LE.FieldIs(h, 12, 4, 92);
    LE.FieldIs(h, 20, 4, 0);
    LE.FieldIs(h, 24, 8, currentLba);
    LE.FieldIs(h, 32, 8, backupLba);
    LE.FieldIs(h, 40, 8, 34);
    LE.FieldIs(h, 48, 8, 131038);
    LE.FieldIs(h, 72, 8, entriesLba);
    LE.FieldIs(h, 80, 4, 128);
    LE.FieldIs(h, 84, 4, 128);
  }

  predicate HoldsHeaderByte(h: seq<u8>, j: nat, currentLba: u64, backupLba: u64, entriesLba: u64)
    requires |h| == SECTOR && j < SECTOR
  {
    var b := HeaderByte(j, currentLba, backupLba, entriesLba);
    b.Some? ==> h[j] == b.value
  }

  predicate HeaderBytesHold(h: seq<u8>, currentLba: u64, backupLba: u64, entriesLba: u64)
    requires |h| == SECTOR
  {
    forall j: nat | j < SECTOR :: HoldsHeaderByte(h, j, currentLba, backupLba, entriesLba)
  }

  lemma HeaderFieldsExact(h: seq<u8>, currentLba: u64, backupLba: u64, entriesLba: u64)
    requires |h| == SECTOR
    ensures HeaderFields(h, currentLba, backupLba, entriesLba)
       <==> HeaderBytesHold(h, currentLba, backupLba, entriesLba)
  {
    hide LE.Bytes;
    if HeaderFields(h, currentLba, backupLba, entriesLba) {
      forall j: nat | j < SECTOR
        ensures HoldsHeaderByte(h, j, currentLba, backupLba, entriesLba)
      {
        HeaderFieldsToByte(h, j, currentLba, backupLba, entriesLba);
      }
    }
    if HeaderBytesHold(h, currentLba, backupLba, entriesLba) {
      HeaderBytesToFields(h, currentLba, backupLba, entriesLba);
    }
  }

  /** The header check passes exactly when every byte outside the CRCs and the disk GUID has its one value. */
  lemma HeaderExact(h: seq<u8>, currentLba: u64, backupLba: u64, entriesLba: u64)
    requires |h| == SECTOR
    ensures ValidateRawGptHeader(h, currentLba, backupLba, entriesLba)
       <==> HeaderBytesHold(h, currentLba, backupLba, entriesLba)
  {
    hide ValidateRawGptHeader, HeaderBytesHold, HeaderFields;
    HeaderReadsAreBytes(h, currentLba, backupLba, entriesLba);
    HeaderFieldsExact(h, currentLba, backupLba, entriesLba);
  }

  lemma HeaderFieldsToByte(h: seq<u8>, j: nat, currentLba: u64, backupLba: u64, entriesLba: u64)
    requires |h| == SECTOR && j < SECTOR && HeaderFields(h, currentLba, backupLba, entriesLba)
    ensures HoldsHeaderByte(h, j, currentLba, backupLba, entriesLba)
  {
    hide LE.Bytes;
    if j < 8 { assert h[0..8][j] == h[j]; }
    else if j < 12 { assert h[8..12][j - 8] == h[j]; }
    else if j < 16 { assert h[12..16][j - 12] == h[j]; }
    else if 20 <= j < 24 { assert h[20..24][j - 20] == h[j]; }
    else if 24 <= j < 32 { assert h[24..32][j - 24] == h[j]; }
    else if 32 <= j < 40 { assert h[32..40][j - 32] == h[j]; }
    else if 40 <= j < 48 { assert h[40..48][j - 40] == h[j]; }
    else if 48 <= j < 56 { assert h[48..56][j - 48] == h[j]; }
    else if 72 <= j < 80 { assert h[72..80][j - 72] == h[j]; }
    else if 80 <= j < 84 { assert h[80..84][j - 80] == h[j]; }
    else if 84 <= j < 88 { assert h[84..88][j - 84] == h[j]; }
    else if 92 <= j { assert h[92..][j - 92] == h[j]; }
  }

  lemma FieldFromBytes(h: seq<u8>, at: nat, s: seq<u8>)
    requires at + |s| <= |h| && forall j | at <= j < at + |s| :: h[j] == s[j - at]
    ensures h[at..at + |s|] == s
  {
  }

  lemma HeaderBytesToFields(h: seq<u8>, currentLba: u64, backupLba: u64, entriesLba: u64)
    requires |h| == SECTOR && HeaderBytesHold(h, currentLba, backupLba, entriesLba)
    ensures HeaderFields(h, currentLba, backupLba, entriesLba)
  {
    hide LE.Bytes;
    forall j: nat | j < SECTOR
      ensures HeaderByte(j, currentLba, backupLba, entriesLba).Some?
          ==> h[j] == HeaderByte(j, currentLba, backupLba, entriesLba).value
    {
      assert HoldsHeaderByte(h, j, currentLba, backupLba, entriesLba);
    }
    FieldFromBytes(h, 0, SIGNATURE);
    FieldFromBytes(h, 8, LE.Bytes(0x1_0000, 4));
    FieldFromBytes(h, 12, LE.Bytes(92, 4));
    FieldFromBytes(h, 20, LE.Bytes(0, 4));
    FieldFromBytes(h, 24, LE.Bytes(currentLba, 8));
    FieldFromBytes(h, 32, LE.Bytes(backupLba, 8));
    FieldFromBytes(h, 40, LE.Bytes(34, 8));
    FieldFromBytes(h, 48, LE.Bytes(131038, 8));
    FieldFromBytes(h, 72, LE.Bytes(entriesLba, 8));
    FieldFromBytes(h, 80, LE.Bytes(128, 4));
    FieldFromBytes(h, 84, LE.Bytes(128, 4));
  }

  // ---------------------------------------------------------------------------------
  // The checked ranges, in bytes, and the whole disk.
  // ---------------------------------------------------------------------------------

  predicate ZeroIn(image: Image, from: nat, to: nat)
    requires from <= to <= DISK_BYTES
  {
    forall i | from <= i < to :: image[i] == 0
  }

  lemma ZeroSlice(image: Image, from: nat, to: nat)
    requires from <= to <= DISK_BYTES
    ensures AllZero(image[from..to]) <==> ZeroIn(image, from, to)
  {
    if AllZero(image[from..to]) {
      forall i | from <= i < to
        ensures image[i] == 0
      {
        assert image[from..to][i - from] == image[i];
      }
    }
  }

  predicate MbrRanges(image: Image) {
    && ZeroIn(image, 0, 446)
    && image[446..462] == PROTECTIVE_ENTRY
    && ZeroIn(image, 462, 510)
    && image[510..512] == [0x55, 0xaa]
  }

  predicate HeaderRanges(image: Image) {
    && HeaderBytesHold(image[512..1024], 1, BACKUP_GPT_HEADER_LBA, 2)
    && HeaderBytesHold(image[67108352..67108864], BACKUP_GPT_HEADER_LBA, 1, BACKUP_GPT_ENTRIES_LBA)
    && image[568..584] == image[67108408..67108424]
    && image[600..604] == image[67108440..67108444]
  }

  predicate EntryRanges(image: Image) {
    && image[1024..17408] == image[67091968..67108352]
    && (exists i | 1024 <= i < 1152 :: image[i] != 0)
    && ZeroIn(image, 1152, 17408)
    && ZeroIn(image, 17408, 1048576)
    && ZeroIn(image, 66060288, 67091968)
  }

  lemma SubRange(image: Image, at: nat, i: nat, j: nat)
    requires i <= j <= SECTOR && at + SECTOR <= |image|
    ensures image[at..at + SECTOR][i..j] == image[at + i..at + j]
  {
    var s, t := image[at..at + SECTOR][i..j], image[at + i..at + j];
    assert forall k | 0 <= k < j - i :: s[k] == image[at..at + SECTOR][i + k] == image[at + i + k] == t[k];
  }

  lemma CheckedRanges(image: Image)
    ensures ValidateRawGptLayout(image) <==> MbrRanges(image) && HeaderRanges(image) && EntryRanges(image)
  {
    hide AllZero, ZeroIn, ValidateRawGptHeader, HeaderBytesHold, HeaderFields;
    assert image[..446] == image[0..446];
    ZeroSlice(image, 0, 446);
    ZeroSlice(image, 462, 510);
    var primary, backup := image[512..1024], image[67108352..67108864];
    HeaderExact(primary, 1, BACKUP_GPT_HEADER_LBA, 2);
    HeaderExact(backup, BACKUP_GPT_HEADER_LBA, 1, BACKUP_GPT_ENTRIES_LBA);
    SubRange(image, 512, 56, 72);
    SubRange(image, 512, 88, 92);
    SubRange(image, 67108352, 56, 72);
    SubRange(image, 67108352, 88, 92);
    EntryArray(image);
    ZeroSlice(image, 1152, 17408);
    ZeroSlice(image, 17408, 1048576);
    ZeroSlice(image, 66060288, 67091968);
  }

  lemma EntryArray(image: Image)
    ensures var entries := image[1024..17408];
            && entries[GPT_ENTRY_BYTES..GPT_ENTRY_COUNT * GPT_ENTRY_BYTES] == image[1152..17408]
            && ((exists i | 0 <= i < GPT_ENTRY_BYTES :: entries[i] != 0)
                <==> exists i | 1024 <= i < 1152 :: image[i] != 0)
  {
    var entries := image[1024..17408];
    assert entries[128..16384] == image[1152..17408];
    if i :| 0 <= i < 128 && entries[i] != 0 {
      assert image[1024 + i] != 0;
    }
    if i :| 1024 <= i < 1152 && image[i] != 0 {
      assert entries[i - 1024] != 0;
    }
  }

  lemma MbrExact(image: Image)
    ensures MbrRanges(image) <==> forall i: nat | i < 512 :: image[i] == MbrByte(i)
  {
    if MbrRanges(image) {
      forall i: nat | i < 512
        ensures image[i] == MbrByte(i)
      {
        if 446 <= i < 462 {
          assert image[446..462][i - 446] == image[i];
        } else if 510 <= i {
          assert image[510..512][i - 510] == image[i];
        }
      }
    }
    if forall i: nat | i < 512 :: image[i] == MbrByte(i) {
      assert image[446..462] == PROTECTIVE_ENTRY by {
        forall i | 446 <= i < 462
          ensures image[i] == PROTECTIVE_ENTRY[i - 446]
        {
          assert image[i] == MbrByte(i);
        }
      }
      assert image[510] == MbrByte(510) && image[511] == MbrByte(511);
    }
  }

  lemma HeaderInImage(image: Image, base: nat, currentLba: u64, backupLba: u64, entriesLba: u64)
    requires base + SECTOR <= DISK_BYTES
    ensures HeaderBytesHold(image[base..base + SECTOR], currentLba, backupLba, entriesLba)
       <==> forall i: nat | base <= i < base + SECTOR ::
              HeaderByte(i - base, currentLba, backupLba, entriesLba).Some? ==>
                image[i] == HeaderByte(i - base, currentLba, backupLba, entriesLba).value
  {
    hide HeaderByte;
    var h := image[base..base + SECTOR];
    if HeaderBytesHold(h, currentLba, backupLba, entriesLba) {
      forall i: nat | base <= i < base + SECTOR
        ensures HeaderByte(i - base, currentLba, backupLba, entriesLba).Some? ==>
                  image[i] == HeaderByte(i - base, currentLba, backupLba, entriesLba).value
      {
        assert HoldsHeaderByte(h, i - base, currentLba, backupLba, entriesLba);
      }
    }
    if forall i: nat | base <= i < base + SECTOR ::
         HeaderByte(i - base, currentLba, backupLba, entriesLba).Some? ==>
           image[i] == HeaderByte(i - base, currentLba, backupLba, entriesLba).value {
      forall j: nat | j < SECTOR
        ensures HoldsHeaderByte(h, j, currentLba, backupLba, entriesLba)
      {
        assert h[j] == image[base + j];
        assert HeaderByte(base + j - base, currentLba, backupLba, entriesLba).Some? ==>
                 image[base + j] == HeaderByte(base + j - base, currentLba, backupLba, entriesLba).value;
      }
    }
  }

  /** The backup array repeats the primary one, so its tail is zero exactly when the primary's is. */
  lemma BackupEntries(image: Image)
    requires ZeroIn(image, 1152, 17408)
    ensures image[1024..17408] == image[67091968..67108352]
       <==> image[1024..1152] == image[67091968..67092096] && ZeroIn(image, 67092096, 67108352)
  {
    var a, b := image[1024..17408], image[67091968..67108352];
    assert a[..128] == image[1024..1152] && b[..128] == image[67091968..67092096];
    if a == b {
      forall i | 67092096 <= i < 67108352
        ensures image[i] == 0
      {
        assert b[i - 67091968] == a[i - 67091968] == image[i - 67091968 + 1024];
      }
    }
    if image[1024..1152] == image[67091968..67092096] && ZeroIn(image, 67092096, 67108352) {
      forall k | 0 <= k < 16384
        ensures a[k] == b[k]
      {
        if k < 128 {
          assert a[..128][k] == b[..128][k];
        }
      }
    }
  }

  /**
    The checked ranges and the four variable ones tile the disk: an image is accepted
    exactly when every other byte has its one canonical value and the two copies agree on
    what may vary outside the ESP.
  */
  lemma AcceptedExactly(image: Image)
    ensures ValidateRawGptLayout(image) <==> FixedBytes(image) && SharedFields(image)
  {
    hide HeaderByte, MbrByte, HeaderBytesHold;
    CheckedRanges(image);
    MbrExact(image);
    HeaderInImage(image, 512, 1, BACKUP_GPT_HEADER_LBA, 2);
    HeaderInImage(image, 67108352, BACKUP_GPT_HEADER_LBA, 1, BACKUP_GPT_ENTRIES_LBA);
    if ValidateRawGptLayout(image) {
      BackupEntries(image);
      forall i: nat | i < DISK_BYTES
        ensures HoldsFixed(image, i)
      {
      }
    }
    if FixedBytes(image) && SharedFields(image) {
      RangesFromFixed(image);
      BackupEntries(image);
    }
  }

  lemma RangesFromFixed(image: Image)
    requires FixedBytes(image)
    ensures ZeroIn(image, 1152, 17408) && ZeroIn(image, 17408, 1048576)
    ensures ZeroIn(image, 66060288, 67091968) && ZeroIn(image, 67092096, 67108352)
    ensures forall i: nat | i < 512 :: image[i] == MbrByte(i)
    ensures forall i: nat | 512 <= i < 1024 ::
              HeaderByte(i - 512, 1, BACKUP_GPT_HEADER_LBA, 2).Some? ==>
                image[i] == HeaderByte(i - 512, 1, BACKUP_GPT_HEADER_LBA, 2).value
    ensures forall i: nat | 67108352 <= i < 67108864 ::
              HeaderByte(i - 67108352, BACKUP_GPT_HEADER_LBA, 1, BACKUP_GPT_ENTRIES_LBA).Some? ==>
                image[i] == HeaderByte(i - 67108352, BACKUP_GPT_HEADER_LBA, 1, BACKUP_GPT_ENTRIES_LBA).value
  {
    hide HeaderByte, MbrByte;
    forall i: nat | i < DISK_BYTES
      ensures FixedByte(i).Some? ==> image[i] == FixedByte(i).value
    {
      assert HoldsFixed(image, i);
    }
  }

  /** Two accepted images differ only in the ESP, the first partition entry, the CRCs and the disk GUID. */
  lemma AcceptedImagesDifferOnlyInVariableRanges(a: Image, b: Image, i: nat)
    requires ValidateRawGptLayout(a) && ValidateRawGptLayout(b) && i < DISK_BYTES && a[i] != b[i]
    ensures || ESP_FIRST_LBA * SECTOR <= i < (ESP_LAST_LBA + 1) * SECTOR
            || 1024 <= i < 1152 || 67091968 <= i < 67092096
            || CrcOrGuid(i - 512) || CrcOrGuid(i - 67108352)
  {
    hide ValidateRawGptLayout, SharedFields, LE.Bytes;
    AcceptedExactly(a);
    AcceptedExactly(b);
    assert HoldsFixed(a, i) && HoldsFixed(b, i);
  }

  /** The header offsets of the header CRC, the disk GUID and the entry-array CRC. */
  predicate CrcOrGuid(j: int) {
    16 <= j < 20 || 56 <= j < 72 || 88 <= j < 92
  }
}
