/** The table of file extension groups of ADC searches (hub/AdcHub.cpp, lines 56-64).  The grouping
    needs every group to be in alphabetical order and no extension to be in two groups. */
module SearchTable {

  import opened Ordering

  const AUDIO: seq<string> :=
    ["ape", "flac", "m4a", "mid", "mp3", "mpc", "ogg", "ra", "wav", "wma"]

  const COMPRESSED: seq<string> :=
    ["7z", "ace", "arj", "bz2", "gz", "lha", "lzh", "rar", "tar", "z", "zip"]

  const DOCUMENT: seq<string> :=
    ["doc", "docx", "htm", "html", "nfo", "odf", "odp", "ods", "odt", "pdf", "ppt", "pptx", "rtf", "txt", "xls",
     "xlsx", "xml", "xps"]

  const EXECUTABLE: seq<string> :=
    ["app", "bat", "cmd", "com", "dll", "exe", "jar", "msi", "ps1", "vbs", "wsf"]

  const PICTURE: seq<string> :=
    ["bmp", "cdr", "eps", "gif", "ico", "img", "jpeg", "jpg", "png", "ps", "psd", "sfw", "tga", "tif", "webp"]

  const VIDEO: seq<string> :=
    ["3gp", "asf", "asx", "avi", "divx", "flv", "mkv", "mov", "mp4", "mpeg", "mpg", "ogm", "pxp", "qt", "rm",
     "rmvb", "swf", "vob", "webm", "wmv"]

  const SEARCH_EXTENSIONS := [AUDIO, COMPRESSED, DOCUMENT, EXECUTABLE, PICTURE, VIDEO]

  ghost predicate Ascending(s: seq<string>) {
    forall i, j :: 0 <= i < j < |s| ==> Less(s[i], s[j])
  }

  /** Groups in order, without common extensions, and few enough for the bit mask. */
  ghost predicate GoodTable(table: seq<seq<string>>) {
    && |table| <= 8
    && (forall g :: 0 <= g < |table| ==> Ascending(table[g]))
    && forall g, h :: 0 <= g < h < |table| ==> Disjoint(table[g], table[h])
  }

  ghost predicate Disjoint(a: seq<string>, b: seq<string>) {
    forall x :: x in a ==> x !in b
  }

  // ---------------------------------------------------------------- extensions as numbers

  /** Up to four characters as digits, the first one counting most. */
  function Packed(s: string): nat {
    ((CodeAt(s, 0) * 128 + CodeAt(s, 1)) * 128 + CodeAt(s, 2)) * 128 + CodeAt(s, 3)
  }

  function CodeAt(s: string, i: nat): nat {
    if i < |s| then s[i] as nat else 0
  }

  predicate Short(s: string) {
    |s| <= 4 && ShortAt(s, 0) && ShortAt(s, 1) && ShortAt(s, 2) && ShortAt(s, 3)
  }

  predicate ShortAt(s: string, i: nat) {
    CodeAt(s, i) < 128 && (i < |s| ==> CodeAt(s, i) > 0)
  }

  /** On such strings the order of the numbers is that of the strings. */
  lemma {:induction false} PackedLess(a: string, b: string)
    requires Short(a) && Short(b) && Packed(a) < Packed(b)
    ensures Less(a, b)
  {
    assert a[0..] == a && b[0..] == b;
    FirstLess(a, b, 0);
  }

  /** Reading from position i on, where everything before is the same. */
  lemma {:induction false} FirstLess(a: string, b: string, i: nat)
    requires Short(a) && Short(b) && i <= 4 && Packed(a) < Packed(b)
    requires forall k :: 0 <= k < i ==> CodeAt(a, k) == CodeAt(b, k)
    requires i <= |a| && i <= |b|
    ensures Less(a[i..], b[i..])
    decreases 4 - i
  {
    if i < |a| && i < |b| && CodeAt(a, i) == CodeAt(b, i) {
      FirstLess(a, b, i + 1);
      assert a[i..][1..] == a[i + 1..] && b[i..][1..] == b[i + 1..];
    }
  }

  const AUDIO_PACKED: seq<nat> :=
    [205271680, 215691491, 229453952, 230322688, 230431104, 230437248, 234484608, 240664576, 251165440, 251359360]

  const COMPRESSED_PACKED: seq<nat> :=
    [117342208, 205058688, 205305088, 207526144, 218005504, 228208768, 228504576, 240679168, 244873472, 255852544,
     257587200]

  const DOCUMENT_PACKED: seq<nat> :=
    [211546496, 211546616, 220018304, 220018412, 232372096, 234435328, 234436608, 234436992, 234437120, 236532480,
     236730880, 236731000, 240988928, 245250560, 253442432, 253442552, 253457920, 253507968]

  const EXECUTABLE_PACKED: seq<nat> :=
    [205273088, 207124992, 209416704, 209450624, 211498496, 213791360, 223901952, 230487168, 236771456, 249084288,
     251458304]

  const PICTURE_PACKED: seq<nat> :=
    [207321088, 209271040, 213662080, 217740032, 221837184, 222000000, 224146151, 224146304, 236696448, 236765184,
     236777984, 242858880, 244969600, 245003008, 251228528]

  const VIDEO_PACKED: seq<nat> :=
    [108656640, 205320960, 205323264, 205370496, 211450744, 215694080, 230357760, 230423296, 230431232, 230437607,
     230437760, 234485376, 236861440, 238878720, 240861184, 240876386, 243135232, 249295104, 251228525, 251362048]

  const PACKED := [AUDIO_PACKED, COMPRESSED_PACKED, DOCUMENT_PACKED, EXECUTABLE_PACKED, PICTURE_PACKED, VIDEO_PACKED]

  /** The k-th extension has the k-th number. */
  predicate Fits(group: seq<string>, packed: seq<nat>, k: nat)
    requires k < |group|
  {
    k < |packed| && Short(group[k]) && Packed(group[k]) == packed[k]
  }

  predicate Rises(packed: seq<nat>, k: nat) {
    k + 1 < |packed| ==> packed[k] < packed[k + 1]
  }

  lemma {:induction false} AudioFits(k: nat)
    requires k < |AUDIO|
    ensures Fits(AUDIO, AUDIO_PACKED, k)
  {}

  lemma {:induction false} CompressedFits(k: nat)
    requires k < |COMPRESSED|
    ensures Fits(COMPRESSED, COMPRESSED_PACKED, k)
  {}

  lemma {:induction false} FirstDocumentFits(k: nat)
    requires k < 9
    ensures k < |DOCUMENT| && Fits(DOCUMENT, DOCUMENT_PACKED, k)
  {}

  lemma {:induction false} DocumentFits(k: nat)
    requires k < |DOCUMENT|
    ensures Fits(DOCUMENT, DOCUMENT_PACKED, k)
  {
    if k < 9 {
      hide Fits;
      FirstDocumentFits(k);
    }
  }

  lemma {:induction false} ExecutableFits(k: nat)
    requires k < |EXECUTABLE|
    ensures Fits(EXECUTABLE, EXECUTABLE_PACKED, k)
  {}

  lemma {:induction false} PictureFits(k: nat)
    requires k < |PICTURE|
    ensures Fits(PICTURE, PICTURE_PACKED, k)
  {}

  lemma {:induction false} VideoFits(k: nat)
    requires k < |VIDEO|
    ensures Fits(VIDEO, VIDEO_PACKED, k)
  {}

  lemma {:induction false} AllRise(k: nat)
    ensures forall g :: 0 <= g < |PACKED| ==> Rises(PACKED[g], k)
  {}

  lemma {:induction false} AudioApart(k: nat)
    requires k < |AUDIO_PACKED|
    ensures var n := AUDIO_PACKED[k];
      && n !in COMPRESSED_PACKED && n !in DOCUMENT_PACKED && n !in EXECUTABLE_PACKED && n !in PICTURE_PACKED
      && n !in VIDEO_PACKED
  {}

  lemma {:induction false} CompressedApart(k: nat)
    requires k < |COMPRESSED_PACKED|
    ensures var n := COMPRESSED_PACKED[k];
      n !in DOCUMENT_PACKED && n !in EXECUTABLE_PACKED && n !in PICTURE_PACKED && n !in VIDEO_PACKED
  {}

  lemma {:induction false} DocumentApart(k: nat)
    requires k < |DOCUMENT_PACKED|
    ensures var n := DOCUMENT_PACKED[k]; n !in EXECUTABLE_PACKED && n !in PICTURE_PACKED && n !in VIDEO_PACKED
  {}

  lemma {:induction false} ExecutableApart(k: nat)
    requires k < |EXECUTABLE_PACKED|
    ensures var n := EXECUTABLE_PACKED[k]; n !in PICTURE_PACKED && n !in VIDEO_PACKED
  {}

  lemma {:induction false} PictureApart(k: nat)
    requires k < |PICTURE_PACKED|
    ensures var n := PICTURE_PACKED[k]; n !in VIDEO_PACKED
  {}

  lemma {:induction false} GroupFits(g: nat, k: nat)
    requires g < |SEARCH_EXTENSIONS| && k < |SEARCH_EXTENSIONS[g]|
    ensures Fits(SEARCH_EXTENSIONS[g], PACKED[g], k) && Rises(PACKED[g], k)
  {
    hide Fits, Rises, AUDIO, COMPRESSED, DOCUMENT, EXECUTABLE, PICTURE, VIDEO,
      AUDIO_PACKED, COMPRESSED_PACKED, DOCUMENT_PACKED, EXECUTABLE_PACKED, PICTURE_PACKED, VIDEO_PACKED;
    AllRise(k);
    match g
    case 0 => AudioFits(k);
    case 1 => CompressedFits(k);
    case 2 => DocumentFits(k);
    case 3 => ExecutableFits(k);
    case 4 => PictureFits(k);
    case _ => VideoFits(k);
  }

  /** No two groups have a number in common. */
  lemma {:induction false} PackedApart(g: nat, i: nat, h: nat, j: nat)
    requires g < h < |PACKED| && i < |PACKED[g]| && j < |PACKED[h]|
    ensures PACKED[g][i] != PACKED[h][j]
  {
    hide AUDIO_PACKED, COMPRESSED_PACKED, DOCUMENT_PACKED, EXECUTABLE_PACKED, PICTURE_PACKED, VIDEO_PACKED;
    match g
    case 0 => AudioApart(i);
    case 1 => CompressedApart(i);
    case 2 => DocumentApart(i);
    case 3 => ExecutableApart(i);
    case _ => PictureApart(i);
  }

  lemma {:induction false} GroupAscends(group: seq<string>, packed: seq<nat>, i: nat, j: nat)
    requires i < j < |group| && forall k :: 0 <= k < |group| ==> Fits(group, packed, k) && Rises(packed, k)
    ensures j < |packed| && packed[i] < packed[j] && Less(group[i], group[j])
    decreases j - i
  {
    assert Fits(group, packed, i) && Rises(packed, j - 1) && Fits(group, packed, j);
    hide Packed, Short;
    if i + 1 < j { GroupAscends(group, packed, i, j - 1); }
    PackedLess(group[i], group[j]);
  }

  /** What the comment in the source asks for, and what the grouping relies on besides. */
  lemma {:induction false} TableIsGood()
    ensures GoodTable(SEARCH_EXTENSIONS)
  {
    hide Packed, Short, Less, AUDIO, COMPRESSED, DOCUMENT, EXECUTABLE, PICTURE, VIDEO,
      AUDIO_PACKED, COMPRESSED_PACKED, DOCUMENT_PACKED, EXECUTABLE_PACKED, PICTURE_PACKED, VIDEO_PACKED;
    var table := SEARCH_EXTENSIONS;
    forall g, k | 0 <= g < |table| && 0 <= k < |table[g]| 
      ensures Fits(table[g], PACKED[g], k) && Rises(PACKED[g], k)
    {
      GroupFits(g, k);
    }
    forall g | 0 <= g < |table| ensures Ascending(table[g]) {
      forall i, j | 0 <= i < j < |table[g]| ensures Less(table[g][i], table[g][j]) {
        GroupAscends(table[g], PACKED[g], i, j);
      }
    }
    forall g, h | 0 <= g < h < |table| ensures Disjoint(table[g], table[h]) {
      forall i, j | 0 <= i < |table[g]| && 0 <= j < |table[h]| ensures table[g][i] != table[h][j] {
        assert Fits(table[g], PACKED[g], i) && Fits(table[h], PACKED[h], j);
        PackedApart(g, i, h, j);
      }
    }
  }
}
