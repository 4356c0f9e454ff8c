/** The C integer types of a statistics header, their sizes and signs, and the packed layout they give a
    blob: what the decoder's format strings have to agree with. */
module CTypes {
  import opened Bytes
  import opened FwStats

  /** A declared type: a listed integer type, or any other text (a nested struct, or a name the script does
      not know). */
  datatype CType =
    | SignedChar
    | UnsignedChar
    | Char
    | Short
    | UnsignedShort
    | Int
    | UnsignedInt
    | Long
    | UnsignedLong
    | LongLong
    | UnsignedLongLong
    | Other(text: string)

  function Spelling(t: CType): string {
    match t
    case SignedChar => "signed char"
    case UnsignedChar => "unsigned char"
    case Char => "char"
    case Short => "short"
    case UnsignedShort => "unsigned short"
    case Int => "int"
    case UnsignedInt => "unsigned int"
    case Long => "long"
    case UnsignedLong => "unsigned long"
    case LongLong => "long long"
    case UnsignedLongLong => "unsigned long long"
    case Other(text) => text
  }

  /** The size of a type on the 32-bit target; other types stand for one word. */
  function Width(t: CType): nat {
    match t
    case SignedChar => 1
    case UnsignedChar => 1
    case Char => 1
    case Short => 2
    case UnsignedShort => 2
    case LongLong => 8
    case UnsignedLongLong => 8
    case _ => 4
  }

  predicate Signed(t: CType) {
    t.SignedChar? || t.Char? || t.Short? || t.Int? || t.Long? || t.LongLong?
  }

  predicate IsListed(s: string) {
    || s == "signed char" || s == "unsigned char" || s == "char" || s == "short" || s == "unsigned short"
    || s == "int" || s == "unsigned int" || s == "long" || s == "unsigned long" || s == "long long"
    || s == "unsigned long long" || s == "float" || s == "double"
  }

  /** `Other` is a nested struct or really unlisted. */
  predicate WellSpelt(t: CType) {
    t.Other? ==> Contains("struct", t.text) || !IsListed(t.text)
  }

  // ------------------------------------------------------------------ the type table

  ghost predicate Lacks(s: string, c: char) {
    forall i :: 0 <= i < |s| ==> s[i] != c
  }

  lemma LacksBoth(a: string, b: string, c: char)
    requires Lacks(a, c) && Lacks(b, c)
    ensures Lacks(a + b, c)
  {
  }

  /** A text that lacks a letter of "struct" is no nested struct. */
  lemma NotNested(s: string, k: nat)
    requires k < 6 && Lacks(s, "struct"[k])
    ensures !Contains("struct", s)
  {
    forall i: nat | i + 6 <= |s|
      ensures !OccursAt("struct", s, i)
    {
      assert s[i..i + 6][k] == s[i + k];
    }
  }

  lemma OfLength13(s: string)
    requires |s| == 13 && s[9] == 'l'
    ensures TypeFormat(s) == if Contains("struct", s) then None else if s == "unsigned long" then Some('L') else Some('I')
  {
    assert "unsigned char"[9] == 'c';
  }

  lemma OfLength18(s: string)
    requires |s| == 18
    ensures TypeFormat(s) == if Contains("struct", s) then None else if s == "unsigned long long" then Some('Q') else Some('I')
  {
  }

  lemma SignedCharFormat()
    ensures TypeFormat("signed char") == Some('b')
  {
    NotNested("signed char", 1);
  }

  lemma UnsignedCharFormat()
    ensures TypeFormat("unsigned char") == Some('B')
  {
    NotNested("unsigned char", 1);
  }

  lemma CharFormat()
    ensures TypeFormat("char") == Some('b')
  {
    NotNested("char", 1);
  }

  lemma ShortFormats()
    ensures TypeFormat("short") == Some('h') && TypeFormat("unsigned short") == Some('H')
  {
    NotNested("short", 4);
    NotNested("unsigned short", 4);
  }

  lemma IntFormat()
    ensures TypeFormat("int") == Some('i')
  {
    NotNested("int", 0);
  }

  lemma OfLength12(s: string)
    requires |s| == 12
    ensures TypeFormat(s) == if Contains("struct", s) then None else Some('I')
  {
  }

  lemma LongFormat()
    ensures TypeFormat("long") == Some('l')
  {
    NotNested("long", 0);
  }

  lemma UnsignedLongFormat()
    ensures TypeFormat("unsigned long") == Some('L')
  {
    LacksBoth("unsigned ", "long", 't');
    assert "unsigned long" == "unsigned " + "long";
    NotNested("unsigned long", 1);
    OfLength13("unsigned long");
  }

  lemma LongLongFormat()
    ensures TypeFormat("long long") == Some('q')
  {
    NotNested("long long", 0);
  }

  lemma UnsignedLongLongFormat()
    ensures TypeFormat("unsigned long long") == Some('Q')
  {
    LacksBoth("unsigned ", "long long", 't');
    assert "unsigned long long" == "unsigned " + "long long";
    NotNested("unsigned long long", 1);
    OfLength18("unsigned long long");
  }

  /** The format character a type ought to have. */
  function Format(t: CType): char {
    match t
    case SignedChar => 'b'
    case UnsignedChar => 'B'
    case Char => 'b'
    case Short => 'h'
    case UnsignedShort => 'H'
    case Int => 'i'
    case UnsignedInt => 'I'
    case Long => 'l'
    case UnsignedLong => 'L'
    case LongLong => 'q'
    case UnsignedLongLong => 'Q'
    case Other(_) => 'I'
  }

  lemma FormatFits(t: CType)
    ensures CharSize(Format(t)) == Width(t) && IsSigned(Format(t)) == Signed(t)
  {
  }

  lemma UnsignedIntFormat()
    ensures FieldFormat(true, Field("unsigned int", "")) == 'I'
  {
    OfLength12("unsigned int");
  }

  lemma OtherFormat(s: string)
    requires Contains("struct", s) || !IsListed(s)
    ensures FieldFormat(true, Field(s, "")) == 'I'
  {
  }

  lemma NameIsFree(s: string, name: string, c: char)
    requires TypeFormat(s) == Some(c) || FieldFormat(true, Field(s, "")) == c
    ensures FieldFormat(true, Field(s, name)) == c
  {
  }

  lemma FormatIs(t: CType, name: string)
    requires WellSpelt(t)
    ensures FieldFormat(true, Field(Spelling(t), name)) == Format(t)
  {
    match t
    case SignedChar => SignedCharFormat(); NameIsFree("signed char", name, 'b');
    case UnsignedChar => UnsignedCharFormat(); NameIsFree("unsigned char", name, 'B');
    case Char => CharFormat(); NameIsFree("char", name, 'b');
    case Short => ShortFormats(); NameIsFree("short", name, 'h');
    case UnsignedShort => ShortFormats(); NameIsFree("unsigned short", name, 'H');
    case Int => IntFormat(); NameIsFree("int", name, 'i');
    case UnsignedInt => UnsignedIntFormat(); NameIsFree("unsigned int", name, 'I');
    case Long => LongFormat(); NameIsFree("long", name, 'l');
    case UnsignedLong => UnsignedLongFormat(); NameIsFree("unsigned long", name, 'L');
    case LongLong => LongLongFormat(); NameIsFree("long long", name, 'q');
    case UnsignedLongLong => UnsignedLongLongFormat(); NameIsFree("unsigned long long", name, 'Q');
    case Other(text) => OtherFormat(text); NameIsFree(text, name, 'I');
  }

  /** The table is right: every type is given a format character of its own size and sign. */
  lemma TableIsRight(t: CType, name: string)
    requires WellSpelt(t)
    ensures var c := FieldFormat(true, Field(Spelling(t), name));
            CharSize(c) == Width(t) && IsSigned(c) == Signed(t)
  {
    FormatIs(t, name);
    FormatFits(t);
  }

  // ------------------------------------------------------------------ numbers in memory

  /** The number some bytes hold: little-endian, and in two's complement if signed. */
  function NumberIn(signed: bool, s: seq<byte>): int
    requires s != []
  {
    if signed && s[|s| - 1] >= 128 then LeVal(s) - Pow256(|s|) else LeVal(s)
  }

  lemma {:induction false} LeValBelow(s: seq<byte>)
    requires s != []
    ensures LeVal(s) < s[|s| - 1] * Pow256(|s| - 1) + Pow256(|s| - 1)
  {
    if |s| == 1 {
      assert s[1..] == [];
    } else {
      LeValBelow(s[1..]);
      var top: int := s[|s| - 1];
      var next := top + 1;
      var p := Pow256(|s| - 2);
      assert LeVal(s[1..]) + 1 <= next * p;
      assert 256 * (next * p) == next * (256 * p);
      assert next * (256 * p) == top * (256 * p) + 256 * p;
    }
  }

  lemma TopBit(s: seq<byte>)
    requires s != []
    ensures 2 * LeVal(s) >= Pow256(|s|) <==> s[|s| - 1] >= 128
  {
    LeValTopByte(s);
    LeValBelow(s);
    var top: int := s[|s| - 1];
    var p := Pow256(|s| - 1);
    assert Pow256(|s|) == 256 * p;
    if top >= 128 {
      Times(128, top, p);
    } else {
      Times(top + 1, 128, p);
      assert (top + 1) * p == top * p + p;
    }
  }

  lemma Times(a: nat, b: nat, p: nat)
    requires a <= b
    ensures a * p <= b * p
  {
  }

  lemma UnpackOneIs(c: char, s: seq<byte>)
    requires |s| == CharSize(c)
    ensures UnpackOne(c, s) == NumberIn(IsSigned(c), s)
  {
    TopBit(s);
  }

  // ------------------------------------------------------------------ the layout of a section

  datatype CField = CField(ctype: CType, name: string)

  /** The field list the header parser makes of the declarations. */
  function Listed(fs: seq<CField>): (r: seq<Field>)
    ensures |r| == |fs|
  {
    seq(|fs|, i requires 0 <= i < |fs| => Field(Spelling(fs[i].ctype), fs[i].name))
  }

  ghost predicate AllWellSpelt(fs: seq<CField>) {
    forall i :: 0 <= i < |fs| ==> WellSpelt(fs[i].ctype)
  }

  function WidthIn(typed: bool, f: CField): nat {
    if typed then Width(f.ctype) else 4
  }

  predicate SignedIn(typed: bool, f: CField) {
    typed && Signed(f.ctype)
  }

  /** The bytes taken by some fields in a row. */
  function Extent(typed: bool, fs: seq<CField>): nat {
    if fs == [] then 0 else WidthIn(typed, fs[0]) + Extent(typed, fs[1..])
  }

  /** A format string that gives every field its size and sign. */
  ghost predicate Describes(fmt: string, typed: bool, fs: seq<CField>) {
    && |fmt| == |fs|
    && forall i :: 0 <= i < |fs| ==> CharSize(fmt[i]) == WidthIn(typed, fs[i]) && IsSigned(fmt[i]) == SignedIn(typed, fs[i])
  }

  lemma FormatDescribes(typed: bool, fs: seq<CField>)
    requires AllWellSpelt(fs)
    ensures Describes(SectionFormat(typed, Listed(fs)), typed, fs)
  {
    var fmt := SectionFormat(typed, Listed(fs));
    forall i | 0 <= i < |fs|
      ensures CharSize(fmt[i]) == WidthIn(typed, fs[i]) && IsSigned(fmt[i]) == SignedIn(typed, fs[i])
    {
      if typed {
        TableIsRight(fs[i].ctype, fs[i].name);
      }
    }
  }

  lemma {:induction false} SizeIsExtent(fmt: string, typed: bool, fs: seq<CField>)
    requires Describes(fmt, typed, fs)
    ensures CalcSize(fmt) == Extent(typed, fs)
  {
    if fs != [] {
      SizeIsExtent(fmt[1..], typed, fs[1..]);
    }
  }

  /** The part of a blob that a format describes, from `off` on. */
  function Part(blob: seq<byte>, off: nat, fmt: string): (s: seq<byte>)
    requires off + CalcSize(fmt) <= |blob|
    ensures |s| == CalcSize(fmt)
  {
    blob[off..off + CalcSize(fmt)]
  }

  /** The bytes of each field. */
  function Cuts(fmt: string, s: seq<byte>): (r: seq<seq<byte>>)
    requires |s| == CalcSize(fmt)
    ensures |r| == |fmt|
  {
    if fmt == "" then [] else [s[..CharSize(fmt[0])]] + Cuts(fmt[1..], s[CharSize(fmt[0])..])
  }

  lemma {:induction false} UnpackIsCuts(fmt: string, s: seq<byte>, i: nat)
    requires |s| == CalcSize(fmt) && i < |fmt|
    ensures |Cuts(fmt, s)[i]| == CharSize(fmt[i])
    ensures Unpack(fmt, s)[i] == UnpackOne(fmt[i], Cuts(fmt, s)[i])
  {
    if i > 0 { UnpackIsCuts(fmt[1..], s[CharSize(fmt[0])..], i - 1); }
  }

  lemma SliceParts(blob: seq<byte>, off: nat, n: nat, m: nat)
    requires off + n + m <= |blob|
    ensures blob[off..off + (n + m)][..n] == blob[off..off + n]
    ensures blob[off..off + (n + m)][n..] == blob[off + n..off + n + m]
  {
  }

  lemma {:induction false} CutAtField(fmt: string, blob: seq<byte>, off: nat, i: nat)
    requires i < |fmt| && off + CalcSize(fmt) <= |blob|
    ensures var from := off + CalcSize(fmt[..i]);
            && from + CharSize(fmt[i]) <= off + CalcSize(fmt)
            && Cuts(fmt, Part(blob, off, fmt))[i] == blob[from..from + CharSize(fmt[i])]
    decreases i
  {
    var n := CharSize(fmt[0]);
    SliceParts(blob, off, n, CalcSize(fmt[1..]));
    if i > 0 {
      PrefixSize(fmt, i);
      CutAtField(fmt[1..], blob, off + n, i - 1);
    }
  }

  /** Unpacking reads field `i` from behind the fields before it. */
  lemma UnpackField(fmt: string, blob: seq<byte>, off: nat, i: nat)
    requires i < |fmt| && off + CalcSize(fmt) <= |blob|
    ensures var from := off + CalcSize(fmt[..i]);
            && from + CharSize(fmt[i]) <= off + CalcSize(fmt)
            && Unpack(fmt, Part(blob, off, fmt))[i] == UnpackOne(fmt[i], blob[from..from + CharSize(fmt[i])])
  {
    UnpackIsCuts(fmt, Part(blob, off, fmt), i);
    CutAtField(fmt, blob, off, i);
  }

  lemma PrefixSize(fmt: string, i: nat)
    requires 0 < i <= |fmt|
    ensures CalcSize(fmt[..i]) == CharSize(fmt[0]) + CalcSize(fmt[1..][..i - 1])
  {
    assert fmt[..i][1..] == fmt[1..][..i - 1];
  }

  lemma FieldIs(fmt: string, typed: bool, fs: seq<CField>, blob: seq<byte>, off: nat, i: nat)
    requires Describes(fmt, typed, fs) && i < |fs| && off + CalcSize(fmt) <= |blob|
    ensures var from, w := off + Extent(typed, fs[..i]), WidthIn(typed, fs[i]);
            && from + w <= off + CalcSize(fmt)
            && Unpack(fmt, Part(blob, off, fmt))[i] == NumberIn(SignedIn(typed, fs[i]), blob[from..from + w])
  {
    UnpackField(fmt, blob, off, i);
    SizeIsExtent(fmt[..i], typed, fs[..i]);
    var from, w := off + Extent(typed, fs[..i]), WidthIn(typed, fs[i]);
    UnpackOneIs(fmt[i], blob[from..from + w]);
  }

  /** Printed field `i` of a section at `off`: its name, and the number in the bytes behind the fields
      before it. */
  ghost predicate PrintsField(p: Printed, typed: bool, fs: seq<CField>, blob: seq<byte>, off: nat, i: nat)
    requires i < |fs|
  {
    var from, w := off + Extent(typed, fs[..i]), WidthIn(typed, fs[i]);
    && |p.values| == |p.names| == |fs| && p.names[i] == fs[i].name
    && from + w <= p.to == off + Extent(typed, fs) <= |blob|
    && p.values[i] == NumberIn(SignedIn(typed, fs[i]), blob[from..from + w])
  }

  lemma SectionParts(structs: Structs, sec: Section, fs: seq<CField>, blob: seq<byte>, off: nat) returns (fmt: string)
    requires CanRead(structs, sec, blob, off) && structs[sec.struct] == Listed(fs) && AllWellSpelt(fs)
    ensures Describes(fmt, sec.typed, fs) && off + CalcSize(fmt) <= |blob|
    ensures var p := ReadSection(structs, sec, blob, off);
            p == Printed(sec.title, Names(Listed(fs)), Unpack(fmt, Part(blob, off, fmt)), off, off + CalcSize(fmt))
  {
    fmt := FormatOf(structs, sec);
    FormatDescribes(sec.typed, fs);
  }

  lemma {:induction false} ReadSectionField(structs: Structs, sec: Section, fs: seq<CField>, blob: seq<byte>, off: nat, i: nat)
    requires CanRead(structs, sec, blob, off)
    requires structs[sec.struct] == Listed(fs) && AllWellSpelt(fs) && i < |fs|
    ensures PrintsField(ReadSection(structs, sec, blob, off), sec.typed, fs, blob, off, i)
  {
    var fmt := SectionParts(structs, sec, fs, blob, off);
    FieldPrinted(ReadSection(structs, sec, blob, off), fmt, sec.typed, fs, blob, off, i);
  }

  lemma FieldPrinted(p: Printed, fmt: string, typed: bool, fs: seq<CField>, blob: seq<byte>, off: nat, i: nat)
    requires Describes(fmt, typed, fs) && i < |fs| && off + CalcSize(fmt) <= |blob|
    requires p == Printed(p.title, Names(Listed(fs)), Unpack(fmt, Part(blob, off, fmt)), off, off + CalcSize(fmt))
    ensures PrintsField(p, typed, fs, blob, off, i)
  {
    SizeIsExtent(fmt, typed, fs);
    FieldIs(fmt, typed, fs, blob, off, i);
    NameAt(fs, i);
  }

  lemma NameAt(fs: seq<CField>, i: nat)
    requires i < |fs|
    ensures |Names(Listed(fs))| == |fs| && Names(Listed(fs))[i] == fs[i].name
  {
  }

  lemma TypedSections(k: nat)
    requires k < |SECTIONS|
    ensures SECTIONS[k].typed == (k < 2)
  {
  }

  /** What the decoder reports for any section of the real layout and any blob it fits in: field `i` is as
      wide and as signed as its declared type in the PHY and LMAC sections, and an unsigned word in the
      four UMAC sections. */
  lemma {:induction false} SectionFieldIs(structs: Structs, k: nat, fs: seq<CField>, blob: seq<byte>, off: nat, i: nat)
    requires k < |SECTIONS| && CanRead(structs, SECTIONS[k], blob, off)
    requires structs[SECTIONS[k].struct] == Listed(fs) && AllWellSpelt(fs) && i < |fs|
    ensures PrintsField(ReadSection(structs, SECTIONS[k], blob, off), k < 2, fs, blob, off, i)
  {
    TypedSections(k);
    ReadSectionField(structs, SECTIONS[k], fs, blob, off, i);
  }

  // ------------------------------------------------------------------ the layout of a blob

  /** Two's complement on `w` bytes, least significant first. */
  function Encoded(w: nat, v: int): seq<byte> {
    LeBytes(v % Pow256(w), w)
  }

  predicate FitsIn(w: nat, signed: bool, v: int) {
    var m: int := Pow256(w);
    if signed then -m <= 2 * v < m else 0 <= v < m
  }

  ghost predicate AllFit(typed: bool, fs: seq<CField>, vs: seq<int>) {
    |vs| == |fs| && forall i :: 0 <= i < |fs| ==> FitsIn(WidthIn(typed, fs[i]), SignedIn(typed, fs[i]), vs[i])
  }

  function Layout(typed: bool, fs: seq<CField>, vs: seq<int>): seq<byte>
    requires |vs| == |fs|
  {
    if fs == [] then [] else Encoded(WidthIn(typed, fs[0]), vs[0]) + Layout(typed, fs[1..], vs[1..])
  }

  lemma InRangeIff(fmt: string, typed: bool, fs: seq<CField>, vs: seq<int>)
    requires Describes(fmt, typed, fs)
    ensures AllFit(typed, fs, vs) <==> AllInRange(fmt, vs)
  {
  }

  lemma EncodedIs(c: char, v: int)
    requires InRange(c, v)
    ensures PackOne(c, v) == Encoded(CharSize(c), v)
  {
    ModOnce(v, Pow256(CharSize(c)));
  }

  lemma ModOnce(v: int, m: nat)
    requires m > 0 && -(m as int) <= v < m
    ensures v % m == if v < 0 && v + m > 0 then v + m else if v < 0 then 0 else v
  {
    if v < 0 {
      assert v == m * -1 + (v + m);
    }
  }

  lemma {:induction false} PackIsLayout(fmt: string, typed: bool, fs: seq<CField>, vs: seq<int>)
    requires Describes(fmt, typed, fs) && AllFit(typed, fs, vs)
    ensures AllInRange(fmt, vs)
    ensures Pack(fmt, vs) == Layout(typed, fs, vs)
  {
    InRangeIff(fmt, typed, fs, vs);
    if fs != [] {
      EncodedIs(fmt[0], vs[0]);
      PackIsLayout(fmt[1..], typed, fs[1..], vs[1..]);
    }
  }

  /** The six structs of the header, in the order of the blob. */
  ghost predicate HeaderDeclares(structs: Structs, fss: seq<seq<CField>>) {
    && |fss| == 6
    && "rpu_phy_stats" in structs && structs["rpu_phy_stats"] == Listed(fss[0])
    && "rpu_lmac_stats" in structs && structs["rpu_lmac_stats"] == Listed(fss[1])
    && "umac_tx_dbg_params" in structs && structs["umac_tx_dbg_params"] == Listed(fss[2])
    && "umac_rx_dbg_params" in structs && structs["umac_rx_dbg_params"] == Listed(fss[3])
    && "umac_cmd_evnt_dbg_params" in structs && structs["umac_cmd_evnt_dbg_params"] == Listed(fss[4])
    && "nrf_wifi_interface_stats" in structs && structs["nrf_wifi_interface_stats"] == Listed(fss[5])
  }

  /** Values for all fields of the sections, each in the range of its type. */
  ghost predicate Valued(fss: seq<seq<CField>>, vss: seq<seq<int>>) {
    && |fss| == |vss| == 6
    && forall k :: 0 <= k < 6 ==> AllWellSpelt(fss[k]) && AllFit(k < 2, fss[k], vss[k])
  }

  /** The firmware's packed struct, from section `k` on. */
  ghost function BlobFrom(k: nat, fss: seq<seq<CField>>, vss: seq<seq<int>>): seq<byte>
    requires Valued(fss, vss) && k <= 6
    decreases 6 - k
  {
    if k == 6 then [] else Layout(k < 2, fss[k], vss[k]) + BlobFrom(k + 1, fss, vss)
  }

  lemma SectionIs(structs: Structs, fss: seq<seq<CField>>, k: nat)
    requires HeaderDeclares(structs, fss) && k < 6
    ensures |SECTIONS| == 6 && SECTIONS[k].struct in structs && SECTIONS[k].typed == (k < 2)
    ensures structs[SECTIONS[k].struct] == Listed(fss[k])
  {
  }

  lemma {:induction false} PackAllIsBlob(structs: Structs, fss: seq<seq<CField>>, vss: seq<seq<int>>, k: nat)
    requires HeaderDeclares(structs, fss) && Valued(fss, vss) && k <= 6
    ensures Packable(structs, SECTIONS[k..], vss[k..])
    ensures PackAll(structs, SECTIONS[k..], vss[k..]) == BlobFrom(k, fss, vss)
    decreases 6 - k
  {
    if k < 6 {
      SectionIs(structs, fss, k);
      FormatDescribes(k < 2, fss[k]);
      PackIsLayout(SectionFormat(k < 2, Listed(fss[k])), k < 2, fss[k], vss[k]);
      PackAllIsBlob(structs, fss, vss, k + 1);
      PackableCons(structs, SECTIONS[k..], vss[k..]);
      assert SECTIONS[k..][1..] == SECTIONS[k + 1..] && vss[k..][1..] == vss[k + 1..];
    }
  }

  lemma PackableCons(structs: Structs, ss: seq<Section>, vss: seq<seq<int>>)
    requires ss != [] && vss != [] && Packable(structs, ss[1..], vss[1..])
    requires ss[0].struct in structs && AllInRange(FormatOf(structs, ss[0]), vss[0])
    ensures Packable(structs, ss, vss)
  {
    forall i | 0 < i < |ss|
      ensures ss[i] == ss[1..][i - 1] && vss[i] == vss[1..][i - 1]
    {
    }
  }

  /** Decoding undoes the firmware's packing: for any declarations of the six structs, any values in the
      range of their types and any bytes behind them, the script prints the six sections in order with the
      declared names and exactly those values. */
  lemma FirmwareRoundTrip(structs: Structs, fss: seq<seq<CField>>, vss: seq<seq<int>>, extra: seq<byte>)
    requires HeaderDeclares(structs, fss) && Valued(fss, vss)
    ensures var ps := StatsReport(structs, BlobFrom(0, fss, vss) + extra);
            && |ps| == 6
            && ps[0].title == "PHY stats" && ps[1].title == "LMAC stats" && ps[2].title == "UMAC TX debug stats"
            && ps[3].title == "UMAC RX debug stats" && ps[4].title == "UMAC control path stats"
            && ps[5].title == "UMAC interface stats"
            && forall k :: 0 <= k < 6 ==> ps[k].names == Names(Listed(fss[k])) && ps[k].values == vss[k]
  {
    PackAllIsBlob(structs, fss, vss, 0);
    assert SECTIONS[0..] == SECTIONS && vss[0..] == vss;
    StatsRoundTrip(structs, SECTIONS, vss, extra);
    var ps := StatsReport(structs, BlobFrom(0, fss, vss) + extra);
    forall k | 0 <= k < 6
      ensures ps[k].names == Names(Listed(fss[k])) && ps[k].values == vss[k]
    {
      SectionIs(structs, fss, k);
    }
  }
}
