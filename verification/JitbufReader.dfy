/**
 * Decoding of serialized jitbuf descriptors (`DescriptorReader::read` in
 * jitbuf/descriptor_reader.cc), against the format documented in
 * jitbuf/descriptor_reader.h. The buffer is the list of its 16-bit words.
 */
module JitbufReader {
  import opened Bits
  import opened JitbufLayout

  datatype Result<T> = Ok(value: T) | Err(error: Error)

  datatype Error = TooShort | TooSmall | TooManyArrays | MissingArray | ArraySize | UnknownType

  // ---------------------------------------------------------------- format

  function TypeCode(t: FType): nat {
    match t
    case INT8 => 0
    case INT16 => 1
    case INT32 => 2
    case INT64 => 3
    case VAR => 4
    case INT128 => 5
  }

  function TypeOf(code: nat): Result<FType> {
    match code
    case 0 => Ok(INT8)
    case 1 => Ok(INT16)
    case 2 => Ok(INT32)
    case 3 => Ok(INT64)
    case 4 => Ok(VAR)
    case 5 => Ok(INT128)
    case _ => Err(UnknownType)
  }

  /** A type code below 4 is the logarithm of the width; 4 is a blob, 5 the widest integer, and there are no others. */
  lemma WidthOfCode(code: nat, packed: bool)
    ensures code < 4 ==> TypeOf(code).Ok? && ElemSize(TypeOf(code).value, packed) == Pow2(code)
    ensures TypeOf(4) == Ok(VAR) && ElemSize(VAR, packed) == (if packed then 2 else 4) && Alignment(VAR, packed) == 2
    ensures TypeOf(5).Ok? && ElemSize(TypeOf(5).value, packed) == 16
    ensures TypeOf(code).Ok? <==> code < 6
    ensures TypeOf(code).Ok? && code != 4 ==>
              Alignment(TypeOf(code).value, packed) == ElemSize(TypeOf(code).value, packed)
  {
    assert Pow2(2) == 4 && Pow2(3) == 8;
  }

  /** A field as it can be described: a 12-bit id and 1 to 4096 elements. */
  predicate ValidField(f: Field) {
    f.id < 4096 && 1 <= f.nElems <= 4096 && f.pos == 0
  }

  predicate ValidFields(fields: seq<Field>) {
    forall i :: 0 <= i < |fields| ==> ValidField(fields[i])
  }

  /** One array flag, three type bits, twelve id bits. */
  function FieldWord(f: Field): nat {
    (if f.nElems != 1 then 0x8000 else 0) + 0x1000 * TypeCode(f.ftype) + f.id
  }

  function FieldWords(fields: seq<Field>): (ws: seq<nat>)
    ensures |ws| == |fields|
  {
    seq(|fields|, i requires 0 <= i < |fields| => FieldWord(fields[i]))
  }

  /** The element counts of the array fields, in order. */
  function ArrayWords(fields: seq<Field>): (ws: seq<nat>)
    ensures |ws| <= |fields|
  {
    if fields == [] then []
    else ArrayWords(fields[..|fields| - 1]) +
         (if fields[|fields| - 1].nElems != 1 then [fields[|fields| - 1].nElems] else [])
  }

  function Encode(rpcId: nat, fields: seq<Field>): seq<nat> {
    [0, rpcId, |fields|, |ArrayWords(fields)|] + FieldWords(fields) + ArrayWords(fields)
  }

  // ---------------------------------------------------------------- decoding

  /** Decode one field word, given the array sizes still unread. */
  function DecodeField(word: nat, arrays: seq<nat>): Result<Field> {
    var isArr := word / 0x8000 > 0;
    if isArr && arrays == [] then Err(MissingArray)
    else if isArr && (arrays[0] == 0 || arrays[0] > 4096) then Err(ArraySize)
    else
      match TypeOf(word / 0x1000 % 8)
      case Err(e) => Err(e)
      case Ok(t) => Ok(Field(word % 0x1000, t, if isArr then arrays[0] else 1, 0))
  }

  /** Decode the first `k` field words: the fields, and how many array sizes they used. */
  function DecodeFields(words: seq<nat>, arrays: seq<nat>, k: nat): (r: Result<(seq<Field>, nat)>)
    requires k <= |words|
    ensures r.Ok? ==> |r.value.0| == k && r.value.1 <= |arrays|
  {
    if k == 0 then Ok(([], 0))
    else
      match DecodeFields(words, arrays, k - 1)
      case Err(e) => Err(e)
      case Ok((fields, used)) =>
        match DecodeField(words[k - 1], arrays[used..])
        case Err(e) => Err(e)
        case Ok(f) => Ok((fields + [f], used + if words[k - 1] / 0x8000 > 0 then 1 else 0))
  }

  /** What `read` yields: the first error met, or the described message. */
  function Decode(buf: seq<nat>, len: nat): Result<(nat, seq<Field>)>
    requires |buf| == len / 2
  {
    if len < 8 then Err(TooShort)
    else
      var n, a := buf[2], buf[3];
      if len < 8 + 2 * n + 2 * a then Err(TooSmall)
      else if a > n then Err(TooManyArrays)
      else
        match DecodeFields(buf[4..4 + n], buf[4 + n..4 + n + a], n)
        case Err(e) => Err(e)
        case Ok((fields, _)) => Ok((buf[1], fields))
  }

  /** `DescriptorReader::read`, one pass over the field words. */
  method Read(buf: seq<nat>, len: nat) returns (res: Result<(nat, seq<Field>)>)
    requires |buf| == len / 2 && len < U16
    requires forall i :: 0 <= i < |buf| ==> buf[i] < U16
    ensures res == Decode(buf, len)
    ensures res.Ok? ==> ValidFields(res.value.1)
  {
    if len < 8 { return Err(TooShort); }
    var rpcId, n, a := buf[1], buf[2], buf[3];
    if len < 8 + 2 * n + 2 * a { return Err(TooSmall); }
    if a > n { return Err(TooManyArrays); }
    hide DecodeFields, ValidFields;
    var r := ReadFields(buf[4..4 + n], buf[4 + n..4 + n + a]);
    if r.Err? { return Err(r.error); }
    return Ok((rpcId, r.value));
  }

  /** The loop over the field words, which advances the array index as it goes. */
  method ReadFields(words: seq<nat>, arrays: seq<nat>) returns (r: Result<seq<Field>>)
    requires forall i :: 0 <= i < |words| ==> words[i] < U16
    ensures match DecodeFields(words, arrays, |words|)
            case Err(e) => r == Err(e)
            case Ok((fields, _)) => r == Ok(fields) && ValidFields(fields)
  {
    hide DecodeFields, DecodeField, ValidField;
    var fields: seq<Field> := [];
    var arrayIndex: nat := 0;
    DecodeNone(words, arrays);
    for i := 0 to |words|
      invariant arrayIndex <= |arrays| && |fields| == i && ValidFields(fields)
      invariant DecodeFields(words, arrays, i) == Ok((fields, arrayIndex))
    {
      DecodeOne(words, arrays, i, fields, arrayIndex);
      var f := ReadField(words[i], arrays[arrayIndex..]);
      if f.Err? {
        ErrorStays(words, arrays, i + 1, |words|);
        return Err(f.error);
      }
      fields := fields + [f.value];
      if words[i] / 0x8000 > 0 { arrayIndex := arrayIndex + 1; }
    }
    return Ok(fields);
  }

  lemma DecodeNone(words: seq<nat>, arrays: seq<nat>)
    ensures DecodeFields(words, arrays, 0) == Ok(([], 0))
  {}

  lemma DecodeOne(words: seq<nat>, arrays: seq<nat>, i: nat, fields: seq<Field>, used: nat)
    requires i < |words| && used <= |arrays| && DecodeFields(words, arrays, i) == Ok((fields, used))
    ensures match DecodeField(words[i], arrays[used..])
            case Err(e) => DecodeFields(words, arrays, i + 1) == Err(e)
            case Ok(f) =>
              var next := used + if words[i] / 0x8000 > 0 then 1 else 0;
              next <= |arrays| && DecodeFields(words, arrays, i + 1) == Ok((fields + [f], next))
  {}

  /** One field word, with the array sizes still unread. */
  method ReadField(field: nat, arrays: seq<nat>) returns (r: Result<Field>)
    requires field < U16
    ensures r == DecodeField(field, arrays)
    ensures r.Ok? ==> ValidField(r.value)
  {
    var isArr := field / 0x8000 > 0;
    if isArr {
      if |arrays| == 0 { return Err(MissingArray); }
      if arrays[0] == 0 || arrays[0] > 4096 { return Err(ArraySize); }
    }
    var t := TypeOf(field / 0x1000 % 8);
    if t.Err? { return Err(t.error); }
    return Ok(Field(field % 0x1000, t.value, if isArr then arrays[0] else 1, 0));
  }

  lemma {:induction false} ErrorStays(words: seq<nat>, arrays: seq<nat>, i: nat, k: nat)
    requires i <= k <= |words| && DecodeFields(words, arrays, i).Err?
    ensures DecodeFields(words, arrays, k) == DecodeFields(words, arrays, i)
  {
    if i < k { ErrorStays(words, arrays, i, k - 1); }
  }

  // ---------------------------------------------------------------- exactly what is decoded

  /** How many of the first `k` field words have the array flag. */
  function Flags(words: seq<nat>, k: nat): nat
    requires k <= |words|
  {
    if k == 0 then 0 else Flags(words, k - 1) + if words[k - 1] >= 0x8000 then 1 else 0
  }

  /** A known type, and for an array a size word of its own with 1 to 4096 elements. */
  predicate Decodable(words: seq<nat>, arrays: seq<nat>, i: nat)
    requires i < |words|
  {
    && words[i] / 0x1000 % 8 < 6
    && (words[i] >= 0x8000 ==> Flags(words, i) < |arrays| && 1 <= arrays[Flags(words, i)] <= 4096)
  }

  /** Type, id and element count where the format puts them. */
  predicate Describes(words: seq<nat>, arrays: seq<nat>, i: nat, f: Field)
    requires i < |words|
  {
    && f.id == words[i] % 0x1000 && f.pos == 0 && TypeOf(words[i] / 0x1000 % 8) == Ok(f.ftype)
    && if words[i] >= 0x8000 then Flags(words, i) < |arrays| && f.nElems == arrays[Flags(words, i)] else f.nElems == 1
  }

  predicate AllDecodable(words: seq<nat>, arrays: seq<nat>) {
    forall i :: 0 <= i < |words| ==> Decodable(words, arrays, i)
  }

  predicate AllDescribed(words: seq<nat>, arrays: seq<nat>, fields: seq<Field>) {
    |fields| == |words| && forall i :: 0 <= i < |words| ==> Describes(words, arrays, i, fields[i])
  }

  lemma {:induction false} FieldsExactly(words: seq<nat>, arrays: seq<nat>, k: nat)
    requires k <= |words|
    ensures DecodeFields(words, arrays, k).Ok? <==> forall i :: 0 <= i < k ==> Decodable(words, arrays, i)
    ensures DecodeFields(words, arrays, k).Ok? ==>
              var (fields, used) := DecodeFields(words, arrays, k).value;
              used == Flags(words, k) && forall i :: 0 <= i < k ==> Describes(words, arrays, i, fields[i])
  {
    hide DecodeField, Decodable, Describes, TypeOf;
    if k > 0 {
      FieldsExactly(words, arrays, k - 1);
      if DecodeFields(words, arrays, k - 1).Ok? {
        var (fields, used) := DecodeFields(words, arrays, k - 1).value;
        FieldExactly(words, arrays, k - 1);
      }
    }
  }

  lemma FieldExactly(words: seq<nat>, arrays: seq<nat>, i: nat)
    requires i < |words| && Flags(words, i) <= |arrays|
    ensures var r := DecodeField(words[i], arrays[Flags(words, i)..]);
            (r.Ok? <==> Decodable(words, arrays, i)) && (r.Ok? ==> Describes(words, arrays, i, r.value))
  {
    hide Flags;
    assert words[i] / 0x8000 > 0 <==> words[i] >= 0x8000;
  }

  /** What is wrong with a field word that is not decodable: its array size first, then its type. */
  function FieldError(words: seq<nat>, arrays: seq<nat>, i: nat): Error
    requires i < |words|
  {
    if words[i] < 0x8000 then UnknownType
    else if Flags(words, i) >= |arrays| then MissingArray
    else if 1 <= arrays[Flags(words, i)] <= 4096 then UnknownType
    else ArraySize
  }

  /** The first field word that is not decodable decides. */
  lemma {:induction false} FirstError(words: seq<nat>, arrays: seq<nat>, i: nat, k: nat)
    requires i < k <= |words| && !Decodable(words, arrays, i)
    requires forall j :: 0 <= j < i ==> Decodable(words, arrays, j)
    ensures DecodeFields(words, arrays, k) == Err(FieldError(words, arrays, i))
  {
    hide Decodable;
    FieldsExactly(words, arrays, i);
    ErrorIs(words, arrays, i);
    ErrorStays(words, arrays, i + 1, k);
  }

  lemma ErrorIs(words: seq<nat>, arrays: seq<nat>, i: nat)
    requires i < |words| && DecodeFields(words, arrays, i).Ok? && !Decodable(words, arrays, i)
    requires DecodeFields(words, arrays, i).value.1 == Flags(words, i)
    ensures DecodeFields(words, arrays, i + 1) == Err(FieldError(words, arrays, i))
  {
    hide Flags;
    assert words[i] / 0x8000 > 0 <==> words[i] >= 0x8000;
  }

  /** The errors of the header come before those of the fields, in this order. */
  lemma HeaderErrors(buf: seq<nat>, len: nat)
    requires |buf| == len / 2
    ensures len < 8 ==> Decode(buf, len) == Err(TooShort)
    ensures len >= 8 && len < 8 + 2 * buf[2] + 2 * buf[3] ==> Decode(buf, len) == Err(TooSmall)
    ensures len >= 8 && len >= 8 + 2 * buf[2] + 2 * buf[3] && buf[3] > buf[2] ==> Decode(buf, len) == Err(TooManyArrays)
  {}

  /**
   * A descriptor is accepted exactly when its header announces what its length
   * holds and every field word is decodable; id, count and fields are then the
   * words at their places.
   */
  lemma DecodesExactly(buf: seq<nat>, len: nat)
    requires |buf| == len / 2
    ensures Decode(buf, len).Ok? <==>
            && len >= 8 && buf[3] <= buf[2] && len >= 8 + 2 * buf[2] + 2 * buf[3]
            && var n, a := buf[2], buf[3];
               AllDecodable(buf[4..4 + n], buf[4 + n..4 + n + a])
    ensures Decode(buf, len).Ok? ==>
              var (id, fields), n, a := Decode(buf, len).value, buf[2], buf[3];
              && id == buf[1] && |fields| == n
              && AllDescribed(buf[4..4 + n], buf[4 + n..4 + n + a], fields)
  {
    hide DecodeFields, Decodable, Describes;
    if len >= 8 && len >= 8 + 2 * buf[2] + 2 * buf[3] {
      var n, a := buf[2], buf[3];
      FieldsExactly(buf[4..4 + n], buf[4 + n..4 + n + a], n);
    }
  }

  // ---------------------------------------------------------------- round trip

  lemma WordParts(f: Field)
    requires ValidField(f)
    ensures var w := FieldWord(f);
            && (w / 0x8000 > 0 <==> f.nElems != 1)
            && TypeOf(w / 0x1000 % 8) == Ok(f.ftype)
            && w % 0x1000 == f.id
  {
    var c := TypeCode(f.ftype);
    assert c <= 5;
  }

  lemma {:induction false} ArrayWordsPrefix(fields: seq<Field>, k: nat)
    requires k <= |fields|
    ensures ArrayWords(fields[..k]) <= ArrayWords(fields)
  {
    if k < |fields| {
      var init := fields[..|fields| - 1];
      ArrayWordsPrefix(init, k);
      assert init[..k] == fields[..k];
    } else {
      assert fields[..k] == fields;
    }
  }

  lemma {:induction false} DecodeFieldsEncode(fields: seq<Field>, k: nat)
    requires ValidFields(fields) && k <= |fields|
    ensures DecodeFields(FieldWords(fields), ArrayWords(fields), k) == Ok((fields[..k], |ArrayWords(fields[..k])|))
  {
    hide DecodeFields, DecodeField, FieldWord, TypeOf;
    var words, all := FieldWords(fields), ArrayWords(fields);
    if k == 0 {
      DecodeNone(words, all);
    } else {
      DecodeFieldsEncode(fields, k - 1);
      var f := fields[k - 1];
      assert fields[..k] == fields[..k - 1] + [f];
      assert fields[..k][..k - 1] == fields[..k - 1];
      ArrayWordsPrefix(fields, k);
      ArrayWordsPrefix(fields, k - 1);
      var used := ArrayWords(fields[..k - 1]);
      DecodeOne(words, all, k - 1, fields[..k - 1], |used|);
      DecodeFieldEncode(f, all[|used|..]);
    }
  }

  lemma DecodeFieldEncode(f: Field, arrays: seq<nat>)
    requires ValidField(f) && (f.nElems != 1 ==> arrays != [] && arrays[0] == f.nElems)
    ensures DecodeField(FieldWord(f), arrays) == Ok(f)
    ensures FieldWord(f) / 0x8000 > 0 <==> f.nElems != 1
  {
    hide FieldWord, TypeOf;
    WordParts(f);
  }

  /** Every description survives encoding and decoding. */
  lemma RoundTrip(rpcId: nat, fields: seq<Field>)
    requires ValidFields(fields)
    ensures Decode(Encode(rpcId, fields), 2 * |Encode(rpcId, fields)|) == Ok((rpcId, fields))
  {
    hide DecodeFields, FieldWords, ArrayWords, ValidFields;
    var n := |fields|;
    var words, all := FieldWords(fields), ArrayWords(fields);
    EncodeParts(rpcId, fields);
    DecodeFieldsEncode(fields, n);
    assert fields[..n] == fields;
  }

  lemma EncodeParts(rpcId: nat, fields: seq<Field>)
    ensures var buf, n, a := Encode(rpcId, fields), |fields|, |ArrayWords(fields)|;
            && |buf| == 4 + n + a && buf[1] == rpcId && buf[2] == n && buf[3] == a
            && buf[4..4 + n] == FieldWords(fields) && buf[4 + n..4 + n + a] == ArrayWords(fields)
  {
    hide FieldWords, ArrayWords;
  }
}
