/** `ModelLoader::parse_gguf` of src/dxmodel/dxmodel.cpp: header, key-values, tensor table. */
module ModelLoading {
  import opened Gguf
  import opened LittleEndian

  const GGUF_MAGIC := 0x46554747

  datatype TensorDataType = FP16 | Q8_0 | Q4_0

  datatype TensorInfo = TensorInfo(name: seq<Byte>, kind: TensorDataType, dims: seq<nat>, offsetBytes: nat)

  // ---------------------------------------------------------------- key-values

  /** Where the key-value section of n entries ends; a missing type field ends it early. */
  function KvsEnd(data: seq<Byte>, off: nat, n: nat): (end: nat)
    ensures end >= off
    decreases n
  {
    if n == 0 then off
    else
      var afterKey := ReadString(data, off).1;
      if afterKey + 4 > |data| then afterKey
      else KvsEnd(data, Skip(data, afterKey + 4, Field(data, afterKey, 4)), n - 1)
  }

  method SkipKvs(data: seq<Byte>, off: nat, n: nat) returns (offset: nat)
    ensures offset == KvsEnd(data, off, n)
  {
    offset := off;
    var i := 0;
    while i < n
      invariant i <= n
      invariant KvsEnd(data, offset, n - i) == KvsEnd(data, off, n)
    {
      var (key, afterKey) := ReadString(data, offset);
      offset := afterKey;
      if offset + 4 > |data| {
        return;
      }
      var valType := Field(data, offset, 4);
      offset := offset + 4;
      offset := SkipVal(data, offset, valType);
      i := i + 1;
    }
  }

  // ---------------------------------------------------------------- the tensor table

  function KindOf(ggmlType: nat): TensorDataType {
    if ggmlType == 7 then Q8_0 else if ggmlType == 2 then Q4_0 else FP16
  }

  /** The kinds that quantised tensors are taken for. */
  lemma KindsIff(ggmlType: nat)
    ensures KindOf(ggmlType) == Q8_0 <==> ggmlType == 7
    ensures KindOf(ggmlType) == Q4_0 <==> ggmlType == 2
  {
  }

  /** The ids the format gives the three kinds. */
  function FormatId(kind: TensorDataType): nat {
    match kind
    case FP16 => 1
    case Q4_0 => 2
    case Q8_0 => 8
  }

  /** A kind is recognised by its id in the format if and only if it is not Q8_0: the id looked
      for, 7, is that of another quantisation. */
  lemma RecognisedIff(kind: TensorDataType)
    ensures KindOf(FormatId(kind)) == kind <==> kind != Q8_0
  {
  }

  /** n dimensions, or as many as fit, and where they end. */
  function ReadDims(data: seq<Byte>, off: nat, n: nat): (r: (seq<nat>, nat))
    ensures r.1 >= off
    decreases n
  {
    if n == 0 || off + 8 > |data| then ([], off)
    else
      var (dims, end) := ReadDims(data, off + 8, n - 1);
      ([Field(data, off, 8)] + dims, end)
  }

  datatype EntryResult = CutShort | Entry(info: TensorInfo, end: nat)

  function ReadEntry(data: seq<Byte>, off: nat): EntryResult {
    var (name, afterName) := ReadString(data, off);
    if afterName + 4 > |data| then CutShort
    else
      var (dims, afterDims) := ReadDims(data, afterName + 4, Field(data, afterName, 4));
      if afterDims + 12 > |data| then CutShort
      else Entry(TensorInfo(name, KindOf(Field(data, afterDims, 4)), dims, Field(data, afterDims + 4, 8)),
                 afterDims + 12)
  }

  /** The entries before the table ends or is cut short. */
  function ReadTable(data: seq<Byte>, off: nat, n: nat): seq<TensorInfo>
    decreases n
  {
    if n == 0 then []
    else match ReadEntry(data, off)
      case CutShort => []
      case Entry(info, end) => [info] + ReadTable(data, end, n - 1)
  }

  method ParseDims(data: seq<Byte>, off: nat, n: nat) returns (dims: seq<nat>, offset: nat)
    ensures (dims, offset) == ReadDims(data, off, n)
  {
    dims, offset := [], off;
    assert [] + ReadDims(data, off, n).0 == ReadDims(data, off, n).0;
    var d := 0;
    while d < n
      invariant d <= n
      invariant var (rest, end) := ReadDims(data, offset, n - d); (dims + rest, end) == ReadDims(data, off, n)
    {
      if offset + 8 > |data| {
        assert dims + [] == dims;
        return;
      }
      var value := Field(data, offset, 8);
      ghost var rest := ReadDims(data, offset + 8, n - d - 1).0;
      assert dims + ([value] + rest) == dims + [value] + rest;
      offset := offset + 8;
      dims := dims + [value];
      d := d + 1;
    }
    assert dims + [] == dims;
  }

  method ParseEntry(data: seq<Byte>, off: nat) returns (entry: EntryResult)
    ensures entry == ReadEntry(data, off)
  {
    var (name, offset) := ReadString(data, off);
    if offset + 4 > |data| {
      return CutShort;
    }
    var nDims := Field(data, offset, 4);
    offset := offset + 4;
    var dims;
    dims, offset := ParseDims(data, offset, nDims);
    if offset + 12 > |data| {
      return CutShort;
    }
    var ggmlType := Field(data, offset, 4);
    var tOffset := Field(data, offset + 4, 8);
    offset := offset + 12;
    entry := Entry(TensorInfo(name, KindOf(ggmlType), dims, tOffset), offset);
  }

  // ---------------------------------------------------------------- architecture flags

  predicate MatchesAt(text: seq<Byte>, part: seq<Byte>, i: nat) {
    i + |part| <= |text| && text[i..i + |part|] == part
  }

  predicate Contains(text: seq<Byte>, part: seq<Byte>) {
    exists i :: 0 <= i <= |text| && MatchesAt(text, part, i)
  }

  /** A name contains another exactly when it is that one with something before and after. */
  lemma ContainsIff(text: seq<Byte>, part: seq<Byte>)
    ensures Contains(text, part) <==> exists before: seq<Byte>, after: seq<Byte> :: text == before + part + after
  {
    if Contains(text, part) {
      var i :| 0 <= i <= |text| && MatchesAt(text, part, i);
      assert text == text[..i] + part + text[i + |part|..];
    }
    if before: seq<Byte>, after: seq<Byte> :| text == before + part + after {
      assert MatchesAt(text, part, |before|);
    }
  }

  function Ascii(s: string): (b: seq<Byte>)
    ensures |b| == |s|
  {
    seq(|s|, i requires 0 <= i < |s| => if s[i] as int < 256 then s[i] as int else 0)
  }

  /** The parts of names that are looked for, spelled out. */
  lemma Spelled()
    ensures MTP == Ascii("mtp") && SPECULATIVE == Ascii("speculative")
    ensures KV_A == Ascii("kv_a") && KV_B == Ascii("kv_b") && Q_A == Ascii("q_a")
  {
  }

  const MTP: seq<Byte> := [109, 116, 112]
  const SPECULATIVE: seq<Byte> := [115, 112, 101, 99, 117, 108, 97, 116, 105, 118, 101]
  const KV_A: seq<Byte> := [107, 118, 95, 97]
  const KV_B: seq<Byte> := [107, 118, 95, 98]
  const Q_A: seq<Byte> := [113, 95, 97]

  predicate IsMtp(name: seq<Byte>) {
    Contains(name, MTP) || Contains(name, SPECULATIVE)
  }

  predicate IsMla(name: seq<Byte>) {
    Contains(name, KV_A) || Contains(name, KV_B) || Contains(name, Q_A)
  }

  datatype ArchConfig = ArchConfig(archName: string, attention: string, mtpDepth: nat, kvCompressedDim: nat)

  predicate AnyMtp(infos: seq<TensorInfo>) {
    exists i :: 0 <= i < |infos| && IsMtp(infos[i].name)
  }

  predicate AnyMla(infos: seq<TensorInfo>) {
    exists i :: 0 <= i < |infos| && IsMla(infos[i].name)
  }

  lemma AnyOfLonger(infos: seq<TensorInfo>, info: TensorInfo)
    ensures AnyMtp(infos + [info]) <==> AnyMtp(infos) || IsMtp(info.name)
    ensures AnyMla(infos + [info]) <==> AnyMla(infos) || IsMla(info.name)
  {
    var longer := infos + [info];
    assert longer[|infos|] == info;
    assert forall i :: 0 <= i < |infos| ==> longer[i] == infos[i];
  }

  function Configured(was: ArchConfig, infos: seq<TensorInfo>): ArchConfig {
    if AnyMtp(infos)
    then was.(archName := "deepseek_v3_mtp", attention := "MTP", mtpDepth := 1)
    else if AnyMla(infos)
    then was.(archName := "deepseek_v3_mla", attention := "MLA", kvCompressedDim := 512)
    else was.(archName := "transformer_gqa", attention := "GQA")
  }

  /** The attention that is configured tells which names the table has; the names of multi-token
      prediction go first. */
  lemma ConfiguredIff(was: ArchConfig, infos: seq<TensorInfo>)
    ensures var c := Configured(was, infos);
      && (c.attention == "MTP" && c.archName == "deepseek_v3_mtp" && c.mtpDepth == 1 <==> AnyMtp(infos))
      && (c.attention == "MLA" && c.archName == "deepseek_v3_mla" && c.kvCompressedDim == 512
          <==> !AnyMtp(infos) && AnyMla(infos))
      && (c.attention == "GQA" && c.archName == "transformer_gqa" <==> !AnyMtp(infos) && !AnyMla(infos))
      && (c.mtpDepth == was.mtpDepth || AnyMtp(infos)) && (c.kvCompressedDim == was.kvCompressedDim || AnyMla(infos))
  {
    assert "MTP"[0] != "GQA"[0] && "MTP"[1] != "MLA"[1] && "MLA"[0] != "GQA"[0];
  }

  // ---------------------------------------------------------------- the loader

  type TensorMap = map<seq<Byte>, TensorInfo>

  /** Entries recorded by name, later ones over earlier ones. */
  function Recorded(m: TensorMap, infos: seq<TensorInfo>): TensorMap {
    if infos == [] then m
    else
      var last := infos[|infos| - 1];
      Recorded(m, infos[..|infos| - 1])[last.name := last]
  }

  ghost predicate HasHeader(data: seq<Byte>) {
    |data| >= 24 && Field(data, 0, 4) == GGUF_MAGIC
  }

  /** The table as the reader finds it after the header's key-values. */
  ghost function TableOf(data: seq<Byte>): seq<TensorInfo>
    requires HasHeader(data)
  {
    ReadTable(data, KvsEnd(data, 24, Field(data, 16, 8)), Field(data, 8, 8))
  }

  class ModelLoader {
    var isGguf: bool
    var config: ArchConfig
    var tensors: TensorMap

    constructor ()
      ensures !isGguf && tensors == map[] && config == ArchConfig("deepseek_v3", "MLA", 1, 512)
    {
      isGguf, tensors := false, map[];
      config := ArchConfig("deepseek_v3", "MLA", 1, 512);
    }

    /** Reads a file given as its bytes. */
    method ParseGguf(data: seq<Byte>) returns (ok: bool)
      modifies this
      ensures ok <==> HasHeader(data)
      ensures !ok ==> tensors == old(tensors) && config == old(config) && isGguf == old(isGguf)
      ensures ok ==> isGguf && tensors == Recorded(old(tensors), TableOf(data))
      ensures ok ==> config == Configured(old(config), TableOf(data))
    {
      if |data| < 24 {
        return false;
      }
      var magic := Field(data, 0, 4);
      if magic != GGUF_MAGIC {
        return false;
      }
      var tensorCount := Field(data, 8, 8);
      var kvCount := Field(data, 16, 8);
      var offset := SkipKvs(data, 24, kvCount);
      var hasMtp, hasMla := ParseTable(data, offset, tensorCount);
      if hasMtp {
        config := config.(archName := "deepseek_v3_mtp", attention := "MTP", mtpDepth := 1);
      } else if hasMla {
        config := config.(archName := "deepseek_v3_mla", attention := "MLA", kvCompressedDim := 512);
      } else {
        config := config.(archName := "transformer_gqa", attention := "GQA");
      }
      isGguf := true;
      ok := true;
    }

    /** The loop over the tensor table: records every entry and notes telling names. */
    method ParseTable(data: seq<Byte>, start: nat, tensorCount: nat) returns (hasMtp: bool, hasMla: bool)
      modifies this`tensors
      ensures tensors == Recorded(old(tensors), ReadTable(data, start, tensorCount))
      ensures hasMtp == AnyMtp(ReadTable(data, start, tensorCount))
      ensures hasMla == AnyMla(ReadTable(data, start, tensorCount))
    {
      hide IsMtp, IsMla, AnyMtp, AnyMla, ReadEntry;
      hasMtp, hasMla := false, false;
      ghost var infos: seq<TensorInfo> := [];
      NoneYet();
      var offset := start;
      var i := 0;
      assert infos + ReadTable(data, start, tensorCount) == ReadTable(data, start, tensorCount);
      while i < tensorCount
        invariant i <= tensorCount
        invariant infos + ReadTable(data, offset, tensorCount - i) == ReadTable(data, start, tensorCount)
        invariant tensors == Recorded(old(tensors), infos)
        invariant hasMtp == AnyMtp(infos) && hasMla == AnyMla(infos)
      {
        var entry := ParseEntry(data, offset);
        if entry.CutShort? {
          break;
        }
        var info := entry.info;
        AnyOfLonger(infos, info);
        ghost var rest := ReadTable(data, entry.end, tensorCount - i - 1);
        assert infos + ([info] + rest) == infos + [info] + rest;
        assert (infos + [info])[..|infos|] == infos;
        offset := entry.end;
        if IsMtp(info.name) {
          hasMtp := true;
        }
        if IsMla(info.name) {
          hasMla := true;
        }
        tensors := tensors[info.name := info];
        infos := infos + [info];
        i := i + 1;
      }
      assert infos + [] == infos;
    }
  }

  lemma NoneYet()
    ensures !AnyMtp([]) && !AnyMla([])
  {
  }

  // ---------------------------------------------------------------- files and the round trip

  datatype KeyValue = KeyValue(key: seq<Byte>, value: Value)

  datatype TensorEntry = TensorEntry(name: seq<Byte>, dims: seq<nat>, ggmlType: nat, offset: nat)

  /** The metadata of a GGUF file and the bytes that follow it. */
  datatype File = File(version: nat, kvs: seq<KeyValue>, table: seq<TensorEntry>, payload: seq<Byte>)

  ghost predicate ValidEntry(e: TensorEntry) {
    && |e.name| < Pow256(8) && |e.dims| < Pow256(4) && e.ggmlType < Pow256(4) && e.offset < Pow256(8)
    && forall d :: 0 <= d < |e.dims| ==> e.dims[d] < Pow256(8)
  }

  ghost predicate ValidFile(f: File) {
    && f.version < Pow256(4) && |f.kvs| < Pow256(8) && |f.table| < Pow256(8)
    && (forall i :: 0 <= i < |f.kvs| ==> |f.kvs[i].key| < Pow256(8) && WellFormed(f.kvs[i].value))
    && (forall i :: 0 <= i < |f.table| ==> ValidEntry(f.table[i]))
  }

  function EncodeKv(kv: KeyValue): seq<Byte> {
    EncodeString(kv.key) + (Bytes(TypeOf(kv.value), 4) + Encode(kv.value))
  }

  function EncodeKvs(kvs: seq<KeyValue>): seq<Byte> {
    if kvs == [] then [] else EncodeKv(kvs[0]) + EncodeKvs(kvs[1..])
  }

  function EncodeDims(dims: seq<nat>): seq<Byte> {
    if dims == [] then [] else Bytes(dims[0], 8) + EncodeDims(dims[1..])
  }

  function EncodeEntry(e: TensorEntry): seq<Byte> {
    EncodeString(e.name) + (Bytes(|e.dims|, 4) + (EncodeDims(e.dims) + (Bytes(e.ggmlType, 4) + Bytes(e.offset, 8))))
  }

  function EncodeTable(table: seq<TensorEntry>): seq<Byte> {
    if table == [] then [] else EncodeEntry(table[0]) + EncodeTable(table[1..])
  }

  function EncodeFile(f: File): seq<Byte> {
    Bytes(GGUF_MAGIC, 4) + (Bytes(f.version, 4) + (Bytes(|f.table|, 8) + (Bytes(|f.kvs|, 8)
    + (EncodeKvs(f.kvs) + (EncodeTable(f.table) + f.payload)))))
  }

  function InfoOf(e: TensorEntry): TensorInfo {
    TensorInfo(e.name, KindOf(e.ggmlType), e.dims, e.offset)
  }

  function InfosOf(table: seq<TensorEntry>): (s: seq<TensorInfo>)
    ensures |s| == |table|
  {
    seq(|table|, i requires 0 <= i < |table| => InfoOf(table[i]))
  }

  lemma {:induction false} KvsRead(data: seq<Byte>, off: nat, kvs: seq<KeyValue>)
    requires At(data, off, EncodeKvs(kvs))
    requires forall i :: 0 <= i < |kvs| ==> |kvs[i].key| < Pow256(8) && WellFormed(kvs[i].value)
    ensures KvsEnd(data, off, |kvs|) == off + |EncodeKvs(kvs)|
    decreases |kvs|
  {
    hide Bytes, Field, At, Encode, Skip, ReadString, EncodeString, WellFormed;
    if kvs != [] {
      var kv := kvs[0];
      var afterKey := off + |EncodeString(kv.key)|;
      AtParts(data, off, EncodeKv(kv), EncodeKvs(kvs[1..]));
      AtParts(data, off, EncodeString(kv.key), Bytes(TypeOf(kv.value), 4) + Encode(kv.value));
      AtParts(data, afterKey, Bytes(TypeOf(kv.value), 4), Encode(kv.value));
      ReadsString(data, off, kv.key);
      Widths();
      ScalarKinds(kv.value);
      FieldAt(data, afterKey, TypeOf(kv.value), 4);
      SkipsEncoding(data, afterKey + 4, kv.value);
      KvsRead(data, off + |EncodeKv(kv)|, kvs[1..]);
    }
  }

  lemma {:induction false} DimsRead(data: seq<Byte>, off: nat, dims: seq<nat>)
    requires At(data, off, EncodeDims(dims)) && forall d :: 0 <= d < |dims| ==> dims[d] < Pow256(8)
    ensures ReadDims(data, off, |dims|) == (dims, off + |EncodeDims(dims)|)
    decreases |dims|
  {
    hide Bytes, Field, At;
    if dims != [] {
      assert dims == [dims[0]] + dims[1..];
      AtParts(data, off, Bytes(dims[0], 8), EncodeDims(dims[1..]));
      FieldAt(data, off, dims[0], 8);
      DimsRead(data, off + 8, dims[1..]);
    }
  }

  lemma {:induction false} DimsLayout(data: seq<Byte>, off: nat, dims: seq<nat>, i: nat)
    requires i < |dims| && At(data, off, EncodeDims(dims)) && forall d :: 0 <= d < |dims| ==> dims[d] < Pow256(8)
    ensures |EncodeDims(dims)| == 8 * |dims| && off + 8 * |dims| <= |data|
    ensures Field(data, off + 8 * i, 8) == dims[i]
    decreases |dims|
  {
    hide Bytes, Field, At;
    DimsBytes(dims);
    AtParts(data, off, Bytes(dims[0], 8), EncodeDims(dims[1..]));
    AtEnds(data, off, EncodeDims(dims));
    if i == 0 {
      FieldAt(data, off, dims[0], 8);
    } else {
      DimsLayout(data, off + 8, dims[1..], i - 1);
    }
  }

  lemma {:induction false} DimsBytes(dims: seq<nat>)
    ensures |EncodeDims(dims)| == 8 * |dims|
  {
    if dims != [] {
      DimsBytes(dims[1..]);
    }
  }

  lemma AtEnds(data: seq<Byte>, off: nat, s: seq<Byte>)
    requires At(data, off, s)
    ensures off + |s| <= |data|
  {
  }

  /** A printed table entry: name, number of dimensions, dimensions, type and offset, in this
      order and with these widths. */
  lemma EntryLayout(data: seq<Byte>, off: nat, e: TensorEntry)
    requires ValidEntry(e) && At(data, off, EncodeEntry(e))
    ensures var a := off + 8 + |e.name|;
      var b := a + 4 + 8 * |e.dims|;
      && |EncodeEntry(e)| == b + 12 - off && b + 12 <= |data|
      && Field(data, off, 8) == |e.name| && data[off + 8..a] == e.name
      && Field(data, a, 4) == |e.dims|
      && (forall i :: 0 <= i < |e.dims| ==> Field(data, a + 4 + 8 * i, 8) == e.dims[i])
      && Field(data, b, 4) == e.ggmlType && Field(data, b + 4, 8) == e.offset
  {
    hide Bytes, Field, At, EncodeDims;
    var last := Bytes(e.ggmlType, 4) + Bytes(e.offset, 8);
    DimsBytes(e.dims);
    var a := off + |EncodeString(e.name)|;
    var b := a + 4 + |EncodeDims(e.dims)|;
    AtEnds(data, off, EncodeEntry(e));
    AtParts(data, off, EncodeString(e.name), Bytes(|e.dims|, 4) + (EncodeDims(e.dims) + last));
    AtParts(data, a, Bytes(|e.dims|, 4), EncodeDims(e.dims) + last);
    AtParts(data, a + 4, EncodeDims(e.dims), last);
    AtParts(data, b, Bytes(e.ggmlType, 4), Bytes(e.offset, 8));
    StringLayout(data, off, e.name);
    FieldAt(data, a, |e.dims|, 4);
    forall i | 0 <= i < |e.dims| ensures Field(data, a + 4 + 8 * i, 8) == e.dims[i] {
      DimsLayout(data, a + 4, e.dims, i);
    }
    FieldAt(data, b, e.ggmlType, 4);
    FieldAt(data, b + 4, e.offset, 8);
  }

  /** A printed key-value: key, type, value. */
  lemma KvLayout(data: seq<Byte>, off: nat, kv: KeyValue)
    requires |kv.key| < Pow256(8) && WellFormed(kv.value) && At(data, off, EncodeKv(kv))
    ensures var a := off + 8 + |kv.key|;
      && a + 4 <= |data| && Field(data, off, 8) == |kv.key| && data[off + 8..a] == kv.key
      && Field(data, a, 4) == TypeOf(kv.value) && At(data, a + 4, Encode(kv.value))
      && |EncodeKv(kv)| == 12 + |kv.key| + |Encode(kv.value)|
  {
    hide Bytes, Field, At, Encode, WellFormed;
    var a := off + |EncodeString(kv.key)|;
    AtParts(data, off, EncodeString(kv.key), Bytes(TypeOf(kv.value), 4) + Encode(kv.value));
    AtParts(data, a, Bytes(TypeOf(kv.value), 4), Encode(kv.value));
    StringLayout(data, off, kv.key);
    Widths();
    ScalarKinds(kv.value);
    FieldAt(data, a, TypeOf(kv.value), 4);
  }

  /** A printed file starts with the letters GGUF and its version. */
  lemma FileStarts(f: File)
    requires ValidFile(f)
    ensures |EncodeFile(f)| >= 24 && EncodeFile(f)[..4] == Ascii("GGUF") && Field(EncodeFile(f), 4, 4) == f.version
  {
    var data := EncodeFile(f);
    var rest := Bytes(|f.table|, 8) + (Bytes(|f.kvs|, 8) + (EncodeKvs(f.kvs) + (EncodeTable(f.table) + f.payload)));
    MagicLetters();
    hide Bytes, Field, EncodeKvs, EncodeTable, ValidEntry, WellFormed, Ascii;
    AtStart(data);
    AtParts(data, 0, Bytes(GGUF_MAGIC, 4), Bytes(f.version, 4) + rest);
    hide At;
    AtParts(data, 4, Bytes(f.version, 4), rest);
    FieldAt(data, 4, f.version, 4);
  }

  lemma MagicLetters()
    ensures Bytes(GGUF_MAGIC, 4) == Ascii("GGUF")
  {
    assert Bytes(0x46, 1) == [0x46] + Bytes(0, 0);
    assert Bytes(0x4655, 2) == [0x55] + Bytes(0x46, 1);
    assert Bytes(0x465547, 3) == [0x47] + Bytes(0x4655, 2);
    assert Bytes(GGUF_MAGIC, 4) == [0x47] + Bytes(0x465547, 3);
  }

  lemma EntryRead(data: seq<Byte>, off: nat, e: TensorEntry)
    requires ValidEntry(e) && At(data, off, EncodeEntry(e))
    ensures ReadEntry(data, off) == Entry(InfoOf(e), off + |EncodeEntry(e)|)
  {
    hide Bytes, Field, At, EncodeDims;
    var last := Bytes(e.ggmlType, 4) + Bytes(e.offset, 8);
    var a := off + |EncodeString(e.name)|;
    var b := a + 4 + |EncodeDims(e.dims)|;
    AtParts(data, off, EncodeString(e.name), Bytes(|e.dims|, 4) + (EncodeDims(e.dims) + last));
    AtParts(data, a, Bytes(|e.dims|, 4), EncodeDims(e.dims) + last);
    AtParts(data, a + 4, EncodeDims(e.dims), last);
    AtParts(data, b, Bytes(e.ggmlType, 4), Bytes(e.offset, 8));
    ReadsString(data, off, e.name);
    FieldAt(data, a, |e.dims|, 4);
    DimsRead(data, a + 4, e.dims);
    FieldAt(data, b, e.ggmlType, 4);
    FieldAt(data, b + 4, e.offset, 8);
  }

  lemma {:induction false} TableRead(data: seq<Byte>, off: nat, table: seq<TensorEntry>)
    requires At(data, off, EncodeTable(table))
    requires forall i :: 0 <= i < |table| ==> ValidEntry(table[i])
    ensures ReadTable(data, off, |table|) == InfosOf(table)
    decreases |table|
  {
    hide At, EncodeEntry, ReadEntry, ValidEntry;
    if table != [] {
      AtParts(data, off, EncodeEntry(table[0]), EncodeTable(table[1..]));
      EntryRead(data, off, table[0]);
      TableRead(data, off + |EncodeEntry(table[0])|, table[1..]);
      assert InfosOf(table) == [InfoOf(table[0])] + InfosOf(table[1..]);
    }
  }

  /** A table that is cut off after some of its entries gives those entries. */
  lemma {:induction false} CutTable(data: seq<Byte>, off: nat, table: seq<TensorEntry>, announced: nat)
    requires At(data, off, EncodeTable(table)) && off + |EncodeTable(table)| == |data| && |table| <= announced
    requires forall i :: 0 <= i < |table| ==> ValidEntry(table[i])
    ensures ReadTable(data, off, announced) == InfosOf(table)
    decreases |table|
  {
    hide At, EncodeEntry, ReadEntry, ValidEntry;
    if table != [] {
      AtParts(data, off, EncodeEntry(table[0]), EncodeTable(table[1..]));
      EntryRead(data, off, table[0]);
      CutTable(data, off + |EncodeEntry(table[0])|, table[1..], announced - 1);
      assert InfosOf(table) == [InfoOf(table[0])] + InfosOf(table[1..]);
    } else {
      NothingThere(data);
    }
  }

  lemma NothingThere(data: seq<Byte>)
    ensures ReadEntry(data, |data|) == CutShort
  {
  }

  /** What a printed file holds, and where. */
  lemma FileParts(f: File)
    requires ValidFile(f)
    ensures var data := EncodeFile(f);
      && |data| == 24 + |EncodeKvs(f.kvs)| + |EncodeTable(f.table)| + |f.payload|
      && Field(data, 0, 4) == GGUF_MAGIC && Field(data, 8, 8) == |f.table| && Field(data, 16, 8) == |f.kvs|
      && At(data, 24, EncodeKvs(f.kvs)) && At(data, 24 + |EncodeKvs(f.kvs)|, EncodeTable(f.table))
  {
    hide Bytes, Field, At, EncodeKvs, EncodeTable, ValidEntry, WellFormed;
    var data := EncodeFile(f);
    var table := EncodeTable(f.table) + f.payload;
    var body := EncodeKvs(f.kvs) + table;
    var kvCount := Bytes(|f.kvs|, 8) + body;
    var counts := Bytes(|f.table|, 8) + kvCount;
    AtStart(data);
    AtParts(data, 0, Bytes(GGUF_MAGIC, 4), Bytes(f.version, 4) + counts);
    AtParts(data, 4, Bytes(f.version, 4), counts);
    AtParts(data, 8, Bytes(|f.table|, 8), kvCount);
    AtParts(data, 16, Bytes(|f.kvs|, 8), body);
    AtParts(data, 24, EncodeKvs(f.kvs), table);
    AtParts(data, 24 + |EncodeKvs(f.kvs)|, EncodeTable(f.table), f.payload);
    Widths();
    FieldAt(data, 0, GGUF_MAGIC, 4);
    FieldAt(data, 8, |f.table|, 8);
    FieldAt(data, 16, |f.kvs|, 8);
  }

  lemma AtStart(data: seq<Byte>)
    ensures At(data, 0, data)
  {
  }

  /** Reading a printed file recovers its tensor table. */
  lemma FileRead(f: File)
    requires ValidFile(f)
    ensures HasHeader(EncodeFile(f)) && TableOf(EncodeFile(f)) == InfosOf(f.table)
  {
    hide EncodeFile, EncodeKvs, EncodeTable, Field, At, KvsEnd, ReadTable, InfosOf, WellFormed, ValidEntry;
    FileParts(f);
    KvsRead(EncodeFile(f), 24, f.kvs);
    TableRead(EncodeFile(f), 24 + |EncodeKvs(f.kvs)|, f.table);
  }

  /** With distinct names, every tensor of the table is found under its name. */
  lemma {:induction false} RecordedFinds(m: TensorMap, infos: seq<TensorInfo>, i: nat)
    requires forall a, b :: 0 <= a < b < |infos| ==> infos[a].name != infos[b].name
    requires i < |infos|
    ensures infos[i].name in Recorded(m, infos) && Recorded(m, infos)[infos[i].name] == infos[i]
  {
    var n := |infos| - 1;
    if i < n {
      RecordedFinds(m, infos[..n], i);
    }
  }

  /** Parsing a printed file of distinctly named tensors gives each its name, dimensions,
      type and offset back. */
  method ParsePrinted(f: File) returns (loader: ModelLoader)
    requires ValidFile(f)
    requires forall a, b :: 0 <= a < b < |f.table| ==> f.table[a].name != f.table[b].name
    ensures loader.isGguf
    ensures forall i :: 0 <= i < |f.table| ==>
      f.table[i].name in loader.tensors && IsInfo(loader.tensors[f.table[i].name], f.table[i])
    ensures loader.config.attention == if exists i :: 0 <= i < |f.table| && IsMtp(f.table[i].name) then "MTP"
      else if exists i :: 0 <= i < |f.table| && IsMla(f.table[i].name) then "MLA" else "GQA"
  {
    hide EncodeFile, TableOf, HasHeader, ValidFile;
    loader := new ModelLoader();
    FileRead(f);
    var ok := loader.ParseGguf(EncodeFile(f));
    var infos := InfosOf(f.table);
    forall i | 0 <= i < |f.table|
      ensures f.table[i].name in loader.tensors && IsInfo(loader.tensors[f.table[i].name], f.table[i])
    {
      RecordedFinds(map[], infos, i);
    }
    AnyNames(f.table);
    ConfiguredIff(ArchConfig("deepseek_v3", "MLA", 1, 512), infos);
    hide AnyMtp, AnyMla, IsMtp, IsMla;
  }

  /** What is recorded of a table entry. */
  predicate IsInfo(info: TensorInfo, e: TensorEntry) {
    && info.name == e.name && info.dims == e.dims && info.offsetBytes == e.offset
    && (info.kind == Q8_0 <==> e.ggmlType == 7) && (info.kind == Q4_0 <==> e.ggmlType == 2)
  }

  lemma AnyNames(table: seq<TensorEntry>)
    ensures AnyMtp(InfosOf(table)) <==> exists i :: 0 <= i < |table| && IsMtp(table[i].name)
    ensures AnyMla(InfosOf(table)) <==> exists i :: 0 <= i < |table| && IsMla(table[i].name)
  {
    hide IsMtp, IsMla;
    assert forall i :: 0 <= i < |table| ==> InfosOf(table)[i].name == table[i].name;
  }
}
