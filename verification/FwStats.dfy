/** Decoding a packed firmware-statistics blob with the field lists read from a C header. */
module FwStats {
  import opened Bytes

  /** A C declaration: its type text and its name. */
  datatype Field = Field(ctype: string, name: string)

  // ------------------------------------------------------------------ formats

  ghost predicate IsSubstring(needle: string, text: string) {
    exists i: nat :: OccursAt(needle, text, i)
  }

  predicate OccursAt(needle: string, text: string, i: nat) {
    i + |needle| <= |text| && text[i..i + |needle|] == needle
  }

  /** needle in text */
  function Contains(needle: string, text: string): (r: bool)
    ensures r <==> IsSubstring(needle, text)
  {
    if |text| < |needle| then false
    else if OccursAt(needle, text, 0) then true
    else if text == "" then false
    else
      ShiftOccurrence(needle, text);
      Contains(needle, text[1..])
  }

  lemma ShiftOccurrence(needle: string, text: string)
    requires text != "" && !OccursAt(needle, text, 0)
    ensures IsSubstring(needle, text) <==> IsSubstring(needle, text[1..])
  {
    if i: nat :| OccursAt(needle, text, i) {
      assert text[1..][i - 1..i - 1 + |needle|] == text[i..i + |needle|];
      assert OccursAt(needle, text[1..], i - 1);
    }
    if i: nat :| OccursAt(needle, text[1..], i) {
      assert text[i + 1..i + 1 + |needle|] == text[1..][i..i + |needle|];
      assert OccursAt(needle, text, i + 1);
    }
  }

  /** get_type_format: None for a nested struct, unsigned int for a type it does not know. */
  function TypeFormat(t: string): Option<char> {
    if Contains("struct", t) then None
    else if t == "signed char" then Some('b')
    else if t == "unsigned char" then Some('B')
    else if t == "char" then Some('b')
    else if t == "short" then Some('h')
    else if t == "unsigned short" then Some('H')
    else if t == "int" then Some('i')
    else if t == "unsigned int" then Some('I')
    else if t == "long" then Some('l')
    else if t == "unsigned long" then Some('L')
    else if t == "long long" then Some('q')
    else if t == "unsigned long long" then Some('Q')
    else if t == "float" then Some('f')
    else if t == "double" then Some('d')
    else Some('I')
  }

  /** Standard sizes of the struct module in little-endian mode. */
  function CharSize(c: char): nat {
    if c == 'b' || c == 'B' then 1
    else if c == 'h' || c == 'H' then 2
    else if c == 'q' || c == 'Q' || c == 'd' then 8
    else 4
  }

  predicate IsSigned(c: char) {
    c == 'b' || c == 'h' || c == 'i' || c == 'l' || c == 'q'
  }

  function CalcSize(fmt: string): nat {
    if fmt == "" then 0 else CharSize(fmt[0]) + CalcSize(fmt[1..])
  }

  /** The format of one field: typed sections look the type up, the others read unsigned ints. */
  function FieldFormat(typed: bool, f: Field): char {
    if typed && TypeFormat(f.ctype).Some? then TypeFormat(f.ctype).value else 'I'
  }

  function SectionFormat(typed: bool, fields: seq<Field>): (fmt: string)
    ensures |fmt| == |fields|
  {
    seq(|fields|, i requires 0 <= i < |fields| => FieldFormat(typed, fields[i]))
  }

  // ------------------------------------------------------------------ values

  /** Values one format character can carry; floats are carried as their bit patterns. */
  predicate InRange(c: char, v: int) {
    var m: int := Pow256(CharSize(c));
    if IsSigned(c) then -m <= 2 * v < m else 0 <= v < m
  }

  function PackOne(c: char, v: int): (s: seq<byte>)
    requires InRange(c, v)
    ensures |s| == CharSize(c)
  {
    LeBytes(if v < 0 then v + Pow256(CharSize(c)) else v, CharSize(c))
  }

  function UnpackOne(c: char, s: seq<byte>): int
    requires |s| == CharSize(c)
  {
    var v := LeVal(s);
    if IsSigned(c) && 2 * v >= Pow256(CharSize(c)) then v - Pow256(CharSize(c)) else v
  }

  lemma UnpackPackOne(c: char, v: int)
    requires InRange(c, v)
    ensures UnpackOne(c, PackOne(c, v)) == v
  {
    LeValOfLeBytes(if v < 0 then v + Pow256(CharSize(c)) else v, CharSize(c));
  }

  ghost predicate AllInRange(fmt: string, vs: seq<int>) {
    |vs| == |fmt| && forall i :: 0 <= i < |fmt| ==> InRange(fmt[i], vs[i])
  }

  /** struct.pack and struct.unpack, field after field without padding. */
  ghost function Pack(fmt: string, vs: seq<int>): (s: seq<byte>)
    requires AllInRange(fmt, vs)
    ensures |s| == CalcSize(fmt)
  {
    if fmt == "" then [] else PackOne(fmt[0], vs[0]) + Pack(fmt[1..], vs[1..])
  }

  function Unpack(fmt: string, s: seq<byte>): (vs: seq<int>)
    requires |s| == CalcSize(fmt)
    ensures |vs| == |fmt|
  {
    if fmt == "" then []
    else var n := CharSize(fmt[0]);
         [UnpackOne(fmt[0], s[..n])] + Unpack(fmt[1..], s[n..])
  }

  lemma {:induction false} UnpackPack(fmt: string, vs: seq<int>)
    requires AllInRange(fmt, vs)
    ensures Unpack(fmt, Pack(fmt, vs)) == vs
  {
    if fmt != "" {
      var n := CharSize(fmt[0]);
      var s := Pack(fmt, vs);
      assert s[..n] == PackOne(fmt[0], vs[0]) && s[n..] == Pack(fmt[1..], vs[1..]);
      UnpackPackOne(fmt[0], vs[0]);
      UnpackPack(fmt[1..], vs[1..]);
      assert vs == [vs[0]] + vs[1..];
    }
  }

  // ------------------------------------------------------------------ sections

  /** A section to look for: which struct, how it is titled, and whether its types are honoured. */
  datatype Section = Section(struct: string, title: string, typed: bool)

  const SECTIONS := [
    Section("rpu_phy_stats", "PHY stats", true),
    Section("rpu_lmac_stats", "LMAC stats", true),
    Section("umac_tx_dbg_params", "UMAC TX debug stats", false),
    Section("umac_rx_dbg_params", "UMAC RX debug stats", false),
    Section("umac_cmd_evnt_dbg_params", "UMAC control path stats", false),
    Section("nrf_wifi_interface_stats", "UMAC interface stats", false)]

  type Structs = map<string, seq<Field>>

  /** One printed section: the values in field order and the bytes they came from. */
  datatype Printed = Printed(title: string, names: seq<string>, values: seq<int>, from: nat, to: nat)

  function Names(fields: seq<Field>): seq<string> {
    seq(|fields|, i requires 0 <= i < |fields| => fields[i].name)
  }

  function FormatOf(structs: Structs, s: Section): string
    requires s.struct in structs
  {
    SectionFormat(s.typed, structs[s.struct])
  }

  predicate CanRead(structs: Structs, s: Section, blob: seq<byte>, off: nat) {
    s.struct in structs && off + CalcSize(FormatOf(structs, s)) <= |blob|
  }

  function ReadSection(structs: Structs, s: Section, blob: seq<byte>, off: nat): Printed
    requires CanRead(structs, s, blob, off)
  {
    var fmt := FormatOf(structs, s);
    var to := off + CalcSize(fmt);
    Printed(s.title, Names(structs[s.struct]), Unpack(fmt, blob[off..to]), off, to)
  }

  /** The report over a list of sections: each absent or too long section is skipped in place. */
  function Report(structs: Structs, ss: seq<Section>, blob: seq<byte>, off: nat): seq<Printed>
    decreases |ss|
  {
    if ss == [] then []
    else if CanRead(structs, ss[0], blob, off) then
      var p := ReadSection(structs, ss[0], blob, off);
      [p] + Report(structs, ss[1..], blob, p.to)
    else Report(structs, ss[1..], blob, off)
  }

  /** What parse_rpu_sys_fw_stats prints. */
  function StatsReport(structs: Structs, blob: seq<byte>): seq<Printed> {
    Report(structs, SECTIONS, blob, 0)
  }

  /** Consumed regions: in order, back to back, inside the blob. */
  ghost predicate Contiguous(ps: seq<Printed>, off: nat, size: nat) {
    && (ps != [] ==> ps[0].from == off)
    && (forall i :: 0 <= i < |ps| ==> ps[i].from <= ps[i].to <= size)
    && (forall i :: 0 <= i < |ps| - 1 ==> ps[i].to == ps[i + 1].from)
  }

  /** For every blob, header and section list, whatever is skipped. */
  lemma {:induction false} ReportIsContiguous(structs: Structs, ss: seq<Section>, blob: seq<byte>, off: nat)
    requires off <= |blob|
    ensures Contiguous(Report(structs, ss, blob, off), off, |blob|)
    decreases |ss|
  {
    if ss != [] {
      if CanRead(structs, ss[0], blob, off) {
        var p := ReadSection(structs, ss[0], blob, off);
        ReportIsContiguous(structs, ss[1..], blob, p.to);
        var rest := Report(structs, ss[1..], blob, p.to);
        assert Report(structs, ss, blob, off) == [p] + rest;
        forall i | 0 <= i < |[p] + rest| - 1
          ensures ([p] + rest)[i].to == ([p] + rest)[i + 1].from
        {
          if i > 0 {
            assert ([p] + rest)[i] == rest[i - 1] && ([p] + rest)[i + 1] == rest[i];
          }
        }
      } else {
        ReportIsContiguous(structs, ss[1..], blob, off);
      }
    }
  }

  /** Where the report stops: behind the last printed section. */
  function EndOf(ps: seq<Printed>, off: nat): nat {
    if ps == [] then off else ps[|ps| - 1].to
  }

  /** A section more is printed exactly if its struct is known and it fits behind those printed before it,
      whatever was skipped on the way. */
  lemma {:induction false} ReportOneMore(structs: Structs, ss: seq<Section>, s: Section, blob: seq<byte>, off: nat)
    ensures var ps := Report(structs, ss, blob, off);
            var end := EndOf(ps, off);
            Report(structs, ss + [s], blob, off)
            == if CanRead(structs, s, blob, end) then ps + [ReadSection(structs, s, blob, end)] else ps
    decreases |ss|
  {
    if ss == [] {
      assert ss + [s] == [s] && [s][1..] == [];
    } else {
      assert (ss + [s])[0] == ss[0] && (ss + [s])[1..] == ss[1..] + [s];
      if CanRead(structs, ss[0], blob, off) {
        var p := ReadSection(structs, ss[0], blob, off);
        ReportOneMore(structs, ss[1..], s, blob, p.to);
      } else {
        ReportOneMore(structs, ss[1..], s, blob, off);
      }
    }
  }

  predicate AllWords(fmt: string) {
    forall i :: 0 <= i < |fmt| ==> fmt[i] == 'I'
  }

  /** A run of unsigned ints is four bytes each. */
  lemma {:induction false} AllWordsSize(fmt: string)
    requires AllWords(fmt)
    ensures CalcSize(fmt) == 4 * |fmt|
  {
    if fmt != "" {
      AllWordsSize(fmt[1..]);
    }
  }

  /** And field `i` is read from word `i`. */
  lemma {:induction false} UnpackWord(fmt: string, s: seq<byte>, i: nat)
    requires AllWords(fmt) && |s| == CalcSize(fmt) == 4 * |fmt| && i < |fmt|
    ensures Unpack(fmt, s)[i] == LeVal(s[4 * i..4 * i + 4])
  {
    if i > 0 {
      UnpackWord(fmt[1..], s[4..], i - 1);
      assert s[4..][4 * (i - 1)..4 * (i - 1) + 4] == s[4 * i..4 * i + 4];
    }
  }

  /** The four UMAC sections of the real layout ignore the declared types: field `i` is always the
      little-endian word at byte 4 * i of the section, whatever the header says. */
  lemma UmacSectionsAreWords(structs: Structs, k: nat, blob: seq<byte>, off: nat)
    requires 2 <= k < |SECTIONS| && CanRead(structs, SECTIONS[k], blob, off)
    ensures var p := ReadSection(structs, SECTIONS[k], blob, off);
            && p.to == off + 4 * |p.names| <= |blob| && |p.values| == |p.names|
            && forall i :: 0 <= i < |p.names| ==> p.values[i] == LeVal(blob[off + 4 * i..off + 4 * i + 4])
  {
    var p := ReadSection(structs, SECTIONS[k], blob, off);
    var fmt, s := FormatOf(structs, SECTIONS[k]), blob[off..p.to];
    AllWordsSize(fmt);
    forall i | 0 <= i < |p.names|
      ensures p.values[i] == LeVal(blob[off + 4 * i..off + 4 * i + 4])
    {
      UnpackWord(fmt, s, i);
      assert s[4 * i..4 * i + 4] == blob[off + 4 * i..off + 4 * i + 4];
    }
  }

  /** The packed form of one list of values per section. */
  ghost predicate Packable(structs: Structs, ss: seq<Section>, vss: seq<seq<int>>) {
    && |vss| == |ss|
    && forall i :: 0 <= i < |ss| ==> ss[i].struct in structs && AllInRange(FormatOf(structs, ss[i]), vss[i])
  }

  ghost function PackAll(structs: Structs, ss: seq<Section>, vss: seq<seq<int>>): seq<byte>
    requires Packable(structs, ss, vss)
    decreases |ss|
  {
    if ss == [] then []
    else Pack(FormatOf(structs, ss[0]), vss[0]) + PackAll(structs, ss[1..], vss[1..])
  }

  /** Every section is reported, in order, with its own names and exactly these values. */
  ghost predicate Reported(structs: Structs, ss: seq<Section>, vss: seq<seq<int>>, ps: seq<Printed>) {
    && |ps| == |ss| == |vss|
    && forall i :: 0 <= i < |ss| ==>
                     && ss[i].struct in structs
                     && ps[i].title == ss[i].title
                     && ps[i].names == Names(structs[ss[i].struct])
                     && ps[i].values == vss[i]
  }

  lemma ReportedCons(structs: Structs, ss: seq<Section>, vss: seq<seq<int>>, p: Printed, rest: seq<Printed>)
    requires ss != [] && vss != [] && ss[0].struct in structs
    requires p.title == ss[0].title && p.names == Names(structs[ss[0].struct]) && p.values == vss[0]
    requires Reported(structs, ss[1..], vss[1..], rest)
    ensures Reported(structs, ss, vss, [p] + rest)
  {
    var ps := [p] + rest;
    forall i | 0 < i < |ss|
      ensures ps[i] == rest[i - 1] && ss[i] == ss[1..][i - 1] && vss[i] == vss[1..][i - 1]
    {
    }
  }

  /** `part` stands in `blob` at `off`. */
  ghost predicate Holds(blob: seq<byte>, off: nat, part: seq<byte>) {
    off + |part| <= |blob| && blob[off..off + |part|] == part
  }

  lemma HoldsBoth(blob: seq<byte>, off: nat, a: seq<byte>, b: seq<byte>)
    requires Holds(blob, off, a + b)
    ensures Holds(blob, off, a) && Holds(blob, off + |a|, b)
  {
    var w := blob[off..off + |a + b|];
    assert blob[off..off + |a|] == w[..|a|];
    assert blob[off + |a|..off + |a| + |b|] == w[|a|..];
  }

  lemma ReadPacked(structs: Structs, s: Section, vs: seq<int>, blob: seq<byte>, off: nat)
    requires s.struct in structs && AllInRange(FormatOf(structs, s), vs)
    requires Holds(blob, off, Pack(FormatOf(structs, s), vs))
    ensures CanRead(structs, s, blob, off)
    ensures ReadSection(structs, s, blob, off)
         == Printed(s.title, Names(structs[s.struct]), vs, off, off + |Pack(FormatOf(structs, s), vs)|)
  {
    UnpackPack(FormatOf(structs, s), vs);
  }

  lemma PackAllParts(structs: Structs, ss: seq<Section>, vss: seq<seq<int>>)
    requires Packable(structs, ss, vss) && ss != []
    ensures ss[0].struct in structs && AllInRange(FormatOf(structs, ss[0]), vss[0])
    ensures Packable(structs, ss[1..], vss[1..])
    ensures PackAll(structs, ss, vss) == Pack(FormatOf(structs, ss[0]), vss[0]) + PackAll(structs, ss[1..], vss[1..])
  {
  }

  lemma ReportParts(structs: Structs, ss: seq<Section>, blob: seq<byte>, off: nat)
    requires ss != [] && CanRead(structs, ss[0], blob, off)
    ensures var p := ReadSection(structs, ss[0], blob, off);
            Report(structs, ss, blob, off) == [p] + Report(structs, ss[1..], blob, p.to)
  {
  }

  /** Where the section after `ss[0]` starts. */
  function NextOffset(structs: Structs, s: Section, off: nat): nat
    requires s.struct in structs
  {
    off + CalcSize(FormatOf(structs, s))
  }

  lemma HoldsParts(structs: Structs, ss: seq<Section>, vss: seq<seq<int>>, blob: seq<byte>, off: nat)
    requires Packable(structs, ss, vss) && ss != []
    requires Holds(blob, off, PackAll(structs, ss, vss))
    ensures ss[0].struct in structs && AllInRange(FormatOf(structs, ss[0]), vss[0])
    ensures Packable(structs, ss[1..], vss[1..])
    ensures Holds(blob, off, Pack(FormatOf(structs, ss[0]), vss[0]))
    ensures Holds(blob, NextOffset(structs, ss[0], off), PackAll(structs, ss[1..], vss[1..]))
  {
    PackAllParts(structs, ss, vss);
    HoldsBoth(blob, off, Pack(FormatOf(structs, ss[0]), vss[0]), PackAll(structs, ss[1..], vss[1..]));
  }

  lemma ReportedStep(structs: Structs, ss: seq<Section>, vss: seq<seq<int>>, blob: seq<byte>, off: nat, rest: seq<Printed>)
    requires ss != [] && vss != [] && ss[0].struct in structs && AllInRange(FormatOf(structs, ss[0]), vss[0])
    requires Holds(blob, off, Pack(FormatOf(structs, ss[0]), vss[0]))
    requires rest == Report(structs, ss[1..], blob, NextOffset(structs, ss[0], off))
    requires Reported(structs, ss[1..], vss[1..], rest)
    ensures Reported(structs, ss, vss, Report(structs, ss, blob, off))
  {
    ReadPacked(structs, ss[0], vss[0], blob, off);
    ReportParts(structs, ss, blob, off);
    ReportedCons(structs, ss, vss, ReadSection(structs, ss[0], blob, off), rest);
  }

  /** Decoding undoes packing, wherever the packed sections stand and whatever follows them. */
  lemma {:induction false} ReportOfPacked(structs: Structs, ss: seq<Section>, vss: seq<seq<int>>,
                                          blob: seq<byte>, off: nat)
    requires Packable(structs, ss, vss)
    requires Holds(blob, off, PackAll(structs, ss, vss))
    ensures Reported(structs, ss, vss, Report(structs, ss, blob, off))
    decreases |ss|
  {
    if ss != [] {
      HoldsParts(structs, ss, vss, blob, off);
      var next := NextOffset(structs, ss[0], off);
      ReportOfPacked(structs, ss[1..], vss[1..], blob, next);
      ReportedStep(structs, ss, vss, blob, off, Report(structs, ss[1..], blob, next));
    }
  }

  /** In particular for a blob that starts with the packed sections: every value comes back. */
  lemma StatsRoundTrip(structs: Structs, ss: seq<Section>, vss: seq<seq<int>>, extra: seq<byte>)
    requires Packable(structs, ss, vss)
    ensures Reported(structs, ss, vss, Report(structs, ss, PackAll(structs, ss, vss) + extra, 0))
  {
    ReportOfPacked(structs, ss, vss, PackAll(structs, ss, vss) + extra, 0);
  }

  // ------------------------------------------------------------------ the script's loops

  method BuildFormat(typed: bool, fields: seq<Field>) returns (fmt: string)
    ensures fmt == SectionFormat(typed, fields)
  {
    fmt := "";
    for i := 0 to |fields|
      invariant fmt == SectionFormat(typed, fields)[..i]
    {
      var c := 'I';
      if typed {
        var t := TypeFormat(fields[i].ctype);
        if t.Some? {
          c := t.value;
        }
      }
      fmt := fmt + [c];
    }
  }

  method ReadOne(structs: Structs, s: Section, blob: seq<byte>, offset: nat) returns (p: Option<Printed>)
    ensures p == if CanRead(structs, s, blob, offset) then Some(ReadSection(structs, s, blob, offset)) else None
  {
    if s.struct !in structs {
      return None;
    }
    var fields := structs[s.struct];
    var fmt := BuildFormat(s.typed, fields);
    var size := CalcSize(fmt);
    if offset + size > |blob| {
      return None;
    }
    var data := Unpack(fmt, blob[offset..offset + size]);
    return Some(Printed(s.title, Names(fields), data, offset, offset + size));
  }

  /** parse_rpu_sys_fw_stats: one pass over the sections, advancing the offset past those that fit. */
  method ParseSections(structs: Structs, ss: seq<Section>, blob: seq<byte>) returns (ps: seq<Printed>, offset: nat)
    ensures ps == Report(structs, ss, blob, 0)
    ensures Contiguous(ps, 0, |blob|)
    ensures offset == (if ps == [] then 0 else ps[|ps| - 1].to) <= |blob|
  {
    ps, offset := [], 0;
    for k := 0 to |ss|
      invariant offset == (if ps == [] then 0 else ps[|ps| - 1].to) <= |blob|
      invariant Report(structs, ss, blob, 0) == ps + Report(structs, ss[k..], blob, offset)
    {
      assert ss[k..][0] == ss[k] && ss[k..][1..] == ss[k + 1..];
      var p := ReadOne(structs, ss[k], blob, offset);
      if p.Some? {
        assert ps + ([p.value] + Report(structs, ss[k + 1..], blob, p.value.to))
            == (ps + [p.value]) + Report(structs, ss[k + 1..], blob, p.value.to);
        ps := ps + [p.value];
        offset := p.value.to;
      }
    }
    assert ss[|ss|..] == [];
    ReportIsContiguous(structs, ss, blob, 0);
  }

  method ParseStats(structs: Structs, blob: seq<byte>) returns (ps: seq<Printed>, offset: nat)
    ensures ps == StatsReport(structs, blob)
    ensures Contiguous(ps, 0, |blob|)
    ensures offset == (if ps == [] then 0 else ps[|ps| - 1].to) <= |blob|
  {
    ps, offset := ParseSections(structs, SECTIONS, blob);
  }
}
