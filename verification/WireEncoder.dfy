/** The wire protocol: events, the fields they are made of, the encoder that copies them into
    a buffer, and a decoder that gets them back. */
module WireEncoder {
  import opened Wrappers
  import opened Bytes

  const MIN_PAYLOAD: nat := 19
  const SCRATCH_SIZE: nat := 32 * 1024
  const MAX_STRING: nat := 4096
  const MAX_SHORT_STRING: nat := 255

  // ---------------------------------------------------------------- integers as bytes

  function Pow(k: nat): (p: nat)
    ensures p >= 1 && (k > 0 ==> p % 2 == 0)
  {
    if k == 0 then 1 else 256 * Pow(k - 1)
  }

  /** The k bytes of v, the least significant one first. */
  function Little(v: nat, k: nat): (b: Key)
    ensures |b| == k
  {
    if k == 0 then [] else [(v % 256) as Byte] + Little(v / 256, k - 1)
  }

  function Unlittle(b: Key): nat {
    if b == [] then 0 else b[0] as nat + 256 * Unlittle(b[1..])
  }

  lemma UnlittleTwo(b: Key)
    requires |b| == 2
    ensures Unlittle(b) == b[0] as int + 256 * b[1] as int
  {
    assert b[1..][0] == b[1] && b[1..][1..] == [];
    assert Unlittle(b[1..]) == b[1] as int;
  }

  lemma {:induction false} LittleBack(v: nat, k: nat)
    requires v < Pow(k)
    ensures Unlittle(Little(v, k)) == v
  {
    if k > 0 {
      LittleBack(v / 256, k - 1);
      assert Little(v, k)[1..] == Little(v / 256, k - 1);
    }
  }

  /** The digits of one, two, four and eight bytes. */
  lemma LittleDigits(v: nat)
    ensures Little(v, 1) == [(v % 256) as Byte]
    ensures Little(v, 2) == [(v % 256) as Byte, (v / 0x100 % 256) as Byte]
    ensures Little(v, 4) == Little(v, 2) + Little(v / 0x1_0000, 2)
    ensures Little(v, 8) == Little(v, 4) + Little(v / 0x1_0000_0000, 4)
  {
    hide Little;
    LittleStep(v, 1);
    LittleStep(v, 2);
    LittleStep(v / 256, 1);
    LittleFour(v, 4);
    LittleFour(v, 8);
  }

  lemma LittleStep(v: nat, k: nat)
    requires k > 0
    ensures Little(v, k) == [(v % 256) as Byte] + Little(v / 256, k - 1) && Little(v, 0) == [] == Little(v / 256, 0)
  {
  }

  lemma LittleTwo(v: nat, k: nat)
    requires k >= 2
    ensures Little(v, k) == Little(v, 2) + Little(v / 0x1_0000, k - 2)
  {
    hide Little;
    LittleStep(v, k);
    LittleStep(v / 256, k - 1);
    LittleStep(v, 2);
    LittleStep(v / 256, 1);
    assert v / 256 / 256 == v / 0x1_0000;
    assert [(v % 256) as Byte] + [(v / 256 % 256) as Byte] == Little(v, 2);
  }

  lemma LittleFour(v: nat, k: nat)
    requires k >= 4
    ensures Little(v, 4) == Little(v, 2) + Little(v / 0x1_0000, 2)
    ensures Little(v, k) == Little(v, 4) + Little(v / 0x1_0000_0000, k - 4)
  {
    hide Little;
    LittleTwo(v, k);
    LittleTwo(v / 0x1_0000, k - 2);
    LittleTwo(v, 4);
    assert v / 0x1_0000 / 0x1_0000 == v / 0x1_0000_0000;
    LittleNone(v);
  }

  lemma LittleNone(v: nat)
    ensures Little(v, 0) == []
  {
  }

  predicate InRange(width: nat, signed: bool, v: int)
    requires width > 0
  {
    if signed then -(Pow(width) / 2) <= v < Pow(width) / 2 else 0 <= v < Pow(width)
  }

  /** Two's complement. */
  function Wrapped(width: nat, v: int): nat
    requires width > 0 && (InRange(width, false, v) || InRange(width, true, v))
  {
    if v < 0 then v + Pow(width) else v
  }

  function Unwrapped(width: nat, signed: bool, n: nat): int
    requires width > 0
  {
    if signed && n >= Pow(width) / 2 then n - Pow(width) else n
  }

  // ---------------------------------------------------------------- fields

  /** A number of the given width in bytes, or a string behind its length. */
  datatype Field = Num(width: nat, signed: bool, v: int) | Text(prefix: nat, s: Key)

  datatype Shape = NumShape(width: nat, signed: bool) | TextShape(prefix: nat)

  function ShapeOf(f: Field): Shape {
    match f
    case Num(w, signed, _) => NumShape(w, signed)
    case Text(p, _) => TextShape(p)
  }

  function ShapesOf(fs: seq<Field>): (ss: seq<Shape>)
    ensures |ss| == |fs| && forall i | 0 <= i < |fs| :: ss[i] == ShapeOf(fs[i])
  {
    seq(|fs|, i requires 0 <= i < |fs| => ShapeOf(fs[i]))
  }

  predicate FieldOk(f: Field) {
    match f
    case Num(w, signed, v) => w > 0 && InRange(w, signed, v)
    case Text(p, s) => p > 0 && |s| < Pow(p)
  }

  predicate FieldsOk(fs: seq<Field>) {
    forall i | 0 <= i < |fs| :: FieldOk(fs[i])
  }

  function FieldBytes(f: Field): Key
    requires FieldOk(f)
  {
    match f
    case Num(w, _, v) => Little(Wrapped(w, v), w)
    case Text(p, s) => Little(|s|, p) + s
  }

  function FieldSize(f: Field): nat {
    match f
    case Num(w, _, _) => w
    case Text(p, s) => p + |s|
  }

  function Encoded(fs: seq<Field>): Key
    requires FieldsOk(fs)
  {
    if fs == [] then [] else Encoded(fs[..|fs| - 1]) + FieldBytes(fs[|fs| - 1])
  }

  function SizeOf(fs: seq<Field>): nat {
    if fs == [] then 0 else SizeOf(fs[..|fs| - 1]) + FieldSize(fs[|fs| - 1])
  }

  lemma {:induction false} EncodedSize(fs: seq<Field>)
    requires FieldsOk(fs)
    ensures |Encoded(fs)| == SizeOf(fs)
  {
    if fs != [] {
      EncodedSize(fs[..|fs| - 1]);
    }
  }

  function Front(fs: seq<Field>): seq<Field>
    requires fs != []
  {
    fs[..|fs| - 1]
  }

  lemma EncodedLast(fs: seq<Field>)
    requires FieldsOk(fs) && fs != []
    ensures FieldsOk(Front(fs)) && FieldOk(fs[|fs| - 1])
    ensures Encoded(fs) == Encoded(Front(fs)) + FieldBytes(fs[|fs| - 1])
  {
  }

  lemma FrontConcat(a: seq<Field>, b: seq<Field>)
    requires FieldsOk(a) && FieldsOk(b)
    ensures FieldsOk(a + b)
    ensures b == [] ==> a + b == a
    ensures b != [] ==> Front(a + b) == a + Front(b) && (a + b)[|a + b| - 1] == b[|b| - 1]
  {
  }

  lemma {:induction false} EncodedConcat(a: seq<Field>, b: seq<Field>)
    requires FieldsOk(a) && FieldsOk(b)
    ensures FieldsOk(a + b) && Encoded(a + b) == Encoded(a) + Encoded(b)
    decreases |b|
  {
    hide *;
    FrontConcat(a, b);
    if b == [] {
      EncodedNil();
      assert a + b == a;
      assert Encoded(a) + [] == Encoded(a);
    } else {
      FrontShorter(b);
      EncodedLast(b);
      EncodedLast(a + b);
      EncodedConcat(a, Front(b));
      assert Encoded(a) + (Encoded(Front(b)) + FieldBytes(b[|b| - 1])) ==
             (Encoded(a) + Encoded(Front(b))) + FieldBytes(b[|b| - 1]);
    }
  }

  lemma EncodedNil()
    ensures Encoded([]) == []
  {
  }

  lemma FrontShorter(fs: seq<Field>)
    requires fs != []
    ensures |Front(fs)| < |fs|
  {
  }

  lemma EncodedOne(f: Field)
    requires FieldOk(f)
    ensures Encoded([f]) == FieldBytes(f)
  {
    assert [f][..0] == [];
  }

  /** The same bytes read from the front. */
  lemma EncodedFront(fs: seq<Field>)
    requires FieldsOk(fs) && fs != []
    ensures FieldsOk(fs[1..]) && Encoded(fs) == FieldBytes(fs[0]) + Encoded(fs[1..])
  {
    hide Encoded, FieldBytes, FieldOk;
    EncodedConcat([fs[0]], fs[1..]);
    EncodedOne(fs[0]);
    assert fs == [fs[0]] + fs[1..];
  }

  /** One field off the front of the bytes. */
  function ReadField(s: Shape, b: Key): Option<(Field, Key)> {
    match s
    case NumShape(w, signed) =>
      if w == 0 || |b| < w then None
      else Some((Num(w, signed, Unwrapped(w, signed, Unlittle(b[..w]))), b[w..]))
    case TextShape(p) =>
      if |b| < p then None
      else
        var n := Unlittle(b[..p]);
        if |b| - p < n then None else Some((Text(p, b[p..p + n]), b[p + n..]))
  }

  lemma ReadBack(f: Field, rest: Key)
    requires FieldOk(f)
    ensures ReadField(ShapeOf(f), FieldBytes(f) + rest) == Some((f, rest))
  {
    var b := FieldBytes(f) + rest;
    match f {
      case Num(w, signed, v) =>
        LittleBack(Wrapped(w, v), w);
        assert b[..w] == Little(Wrapped(w, v), w) && b[w..] == rest;
      case Text(p, s) =>
        LittleBack(|s|, p);
        assert b[..p] == Little(|s|, p) && b[p..p + |s|] == s && b[p + |s|..] == rest;
    }
  }

  function ReadFields(ss: seq<Shape>, b: Key): Option<(seq<Field>, Key)>
    decreases |ss|
  {
    if ss == [] then Some(([], b))
    else
      match ReadField(ss[0], b)
      case None => None
      case Some((f, rest)) =>
        match ReadFields(ss[1..], rest)
        case None => None
        case Some((fs, end)) => Some(([f] + fs, end))
  }

  lemma ReadFieldsStep(ss: seq<Shape>, b: Key, f: Field, rest: Key, fs: seq<Field>, end: Key)
    requires ss != [] && ReadField(ss[0], b) == Some((f, rest)) && ReadFields(ss[1..], rest) == Some((fs, end))
    ensures ReadFields(ss, b) == Some(([f] + fs, end))
  {
  }

  /** Reading undoes encoding, whatever follows. */
  lemma {:induction false} FieldsBack(fs: seq<Field>, rest: Key)
    requires FieldsOk(fs)
    ensures ReadFields(ShapesOf(fs), Encoded(fs) + rest) == Some((fs, rest))
    decreases |fs|
  {
    hide *;
    if fs == [] {
      FieldsBackNil(rest);
    } else {
      EncodedFront(fs);
      FieldsOkAt(fs, 0);
      ReadBack(fs[0], Encoded(fs[1..]) + rest);
      assert Encoded(fs) + rest == FieldBytes(fs[0]) + (Encoded(fs[1..]) + rest);
      FieldsBack(fs[1..], rest);
      ShapesFront(fs);
      ReadFieldsStep(ShapesOf(fs), Encoded(fs) + rest, fs[0], Encoded(fs[1..]) + rest, fs[1..], rest);
      assert [fs[0]] + fs[1..] == fs;
    }
  }

  lemma FieldsBackNil(rest: Key)
    ensures ReadFields(ShapesOf([]), Encoded([]) + rest) == Some(([], rest))
  {
    assert Encoded([]) + rest == rest;
  }

  lemma FieldsOkAt(fs: seq<Field>, i: nat)
    requires FieldsOk(fs) && i < |fs|
    ensures FieldOk(fs[i])
  {
  }

  lemma ShapesFront(fs: seq<Field>)
    requires fs != []
    ensures ShapesOf(fs) != [] && ShapesOf(fs)[0] == ShapeOf(fs[0]) && ShapesOf(fs)[1..] == ShapesOf(fs[1..])
  {
  }

  // ---------------------------------------------------------------- events

  datatype EncString = EncString(encoding: nat, text: Key)

  datatype Event =
    | Begin(functionId: nat, instanceId: nat)
    | End(functionId: nat)
    | MethodInfo(functionId: nat, className: Key, methodName: Key, source: nat)
    | Sql(provider: EncString, host: EncString, database: EncString, query: EncString, duration: int)
    | HttpIn(url: Key, verb: Key, status: nat, duration: int)
    | HttpOut(url: Key, verb: Key, status: nat, duration: int)
    | ProcessType(technology: Key, process: Key)
    | ProcessFrequency(frequency: nat)
    | BeginTransaction(apiKey: Key, technology: Key, process: Key)
    | EndTransaction
    | ThreadStarted(parentTid: nat)
    | ThreadEnded
    | ProcessEnded
    | ExceptionThrown(exceptionId: nat, className: Key, correlationId: Key)

  datatype Message = Message(pid: nat, tid: nat, timestamp: int, event: Event)

  function Code(e: Event): nat {
    match e
    case Begin(_, _) => 0x1
    case End(_) => 0x2
    case MethodInfo(_, _, _, _) => 0xf
    case Sql(_, _, _, _, _) => 0x64
    case HttpIn(_, _, _, _) => 0x65
    case HttpOut(_, _, _, _) => 0x66
    case ProcessType(_, _) => 0xc
    case ProcessFrequency(_) => 0xb
    case BeginTransaction(_, _, _) => 0x10
    case EndTransaction => 0x11
    case ThreadStarted(_) => 0x13
    case ThreadEnded => 0x8
    case ProcessEnded => 0xa
    case ExceptionThrown(_, _, _) => 0x12
  }

  const VT_VOID: nat := 1

  function U8(v: int): Field { Num(1, false, v) }
  function I8(v: int): Field { Num(1, true, v) }
  function U16(v: int): Field { Num(2, false, v) }
  function I16(v: int): Field { Num(2, true, v) }
  function U32(v: int): Field { Num(4, false, v) }
  function U64(v: int): Field { Num(8, false, v) }
  function I64(v: int): Field { Num(8, true, v) }
  function Str(s: Key): Field { Text(2, s) }
  function ShortStr(s: Key): Field { Text(1, s) }

  /** What is copied after the header, in this order. An END carries a void return value: an
      empty length, the type and an empty name. */
  function Fields(e: Event): seq<Field> {
    match e
    case Begin(f, i) => [U32(f), U64(i), U8(0)]
    case End(f) => [U32(f), I8(0), I16(0), U8(VT_VOID), U8(0)]
    case MethodInfo(f, c, m, s) => [U32(f), Str(c), Str(m), U8(s)]
    case Sql(p, h, d, q, t) =>
      [U8(p.encoding), Str(p.text), U8(h.encoding), Str(h.text), U8(d.encoding), Str(d.text), U8(q.encoding),
          Str(q.text), I64(t)]
    case HttpIn(u, v, s, t) => [Str(u), ShortStr(v), U16(s), I64(t)]
    case HttpOut(u, v, s, t) => [Str(u), ShortStr(v), U16(s), I64(t)]
    case ProcessType(t, p) => [Str(t), Str(p)]
    case ProcessFrequency(f) => [U64(f)]
    case BeginTransaction(a, t, p) => [Str(a), Str(t), Str(p)]
    case EndTransaction => []
    case ThreadStarted(p) => [U32(p)]
    case ThreadEnded => []
    case ProcessEnded => []
    case ExceptionThrown(x, c, r) => [U64(x), Str(c), Str(r)]
  }

  /** The field layout the type byte of a message announces. */
  function Layout(code: nat): Option<seq<Shape>> {
    var str, u32, u64 := TextShape(2), NumShape(4, false), NumShape(8, false);
    var u8, i64 := NumShape(1, false), NumShape(8, true);
    if code == 0x1 then Some([u32, u64, u8])
    else if code == 0x2 then Some([u32, NumShape(1, true), NumShape(2, true), u8, u8])
    else if code == 0xf then Some([u32, str, str, u8])
    else if code == 0x64 then Some([u8, str, u8, str, u8, str, u8, str, i64])
    else if code == 0x65 || code == 0x66 then Some([str, TextShape(1), NumShape(2, false), i64])
    else if code == 0xc then Some([str, str])
    else if code == 0xb then Some([u64])
    else if code == 0x10 then Some([str, str, str])
    else if code == 0x11 || code == 0x8 || code == 0xa then Some([])
    else if code == 0x13 then Some([u32])
    else if code == 0x12 then Some([u64, str, str])
    else None
  }

  /** The event of the given type with these fields. */
  function Rebuild(code: nat, fs: seq<Field>): Option<Event>
    requires Layout(code) == Some(ShapesOf(fs))
  {
    if exists i | 0 <= i < |fs| :: fs[i].Num? && !fs[i].signed && fs[i].v < 0 then None
    else if code == 0x1 then Some(Begin(fs[0].v, fs[1].v))
    else if code == 0x2 then Some(End(fs[0].v))
    else if code == 0xf then Some(MethodInfo(fs[0].v, fs[1].s, fs[2].s, fs[3].v))
    else if code == 0x64 then
      Some(Sql(EncString(fs[0].v, fs[1].s), EncString(fs[2].v, fs[3].s), EncString(fs[4].v, fs[5].s),
               EncString(fs[6].v, fs[7].s), fs[8].v))
    else if code == 0x65 then Some(HttpIn(fs[0].s, fs[1].s, fs[2].v, fs[3].v))
    else if code == 0x66 then Some(HttpOut(fs[0].s, fs[1].s, fs[2].v, fs[3].v))
    else if code == 0xc then Some(ProcessType(fs[0].s, fs[1].s))
    else if code == 0xb then Some(ProcessFrequency(fs[0].v))
    else if code == 0x10 then Some(BeginTransaction(fs[0].s, fs[1].s, fs[2].s))
    else if code == 0x11 then Some(EndTransaction)
    else if code == 0x13 then Some(ThreadStarted(fs[0].v))
    else if code == 0x8 then Some(ThreadEnded)
    else if code == 0xa then Some(ProcessEnded)
    else Some(ExceptionThrown(fs[0].v, fs[1].s, fs[2].s))
  }

  /** The values the fields of the C structures can hold: sized integers and strings that fit
      their buffers. */
  predicate EventOk(e: Event) {
    FieldsOk(Fields(e)) && forall i | 0 <= i < |Fields(e)| && Fields(e)[i].Text? ::
      |Fields(e)[i].s| <= if Fields(e)[i].prefix == 1 then MAX_SHORT_STRING else MAX_STRING
  }

  /** rg_encode_size: header and fields, case by case. */
  function EncodeSize(e: Event): nat {
    MIN_PAYLOAD +
    match e
    case Begin(_, _) => 4 + 8 + 1
    case End(_) => 4 + 1 + (2 + 1 + 1)
    case MethodInfo(_, c, m, _) => 4 + 2 + |c| + 2 + |m| + 1
    case Sql(p, h, d, q, _) => 1 + 2 + |p.text| + 1 + 2 + |h.text| + 1 + 2 + |d.text| + 1 + 2 + |q.text| + 8
    case HttpIn(u, v, _, _) => 2 + |u| + 1 + |v| + 2 + 8
    case HttpOut(u, v, _, _) => 2 + |u| + 1 + |v| + 2 + 8
    case ProcessType(t, p) => 2 + |t| + 2 + |p|
    case ProcessFrequency(_) => 8
    case BeginTransaction(a, t, p) => 2 + |a| + 2 + |t| + 2 + |p|
    case EndTransaction => 0
    case ThreadStarted(_) => 4
    case ThreadEnded => 0
    case ProcessEnded => 0
    case ExceptionThrown(_, c, r) => 8 + 2 + |c| + 2 + |r|
  }

  /** A string may have up to 4096 bytes, the verb of a request up to 255. */
  lemma StringLimits(t: Key, v: Key)
    ensures EventOk(ProcessType(t, [])) <==> |t| <= 4096
    ensures EventOk(HttpIn([], v, 0, 0)) <==> |v| <= 255
  {
    Pow8();
    var p, h := Fields(ProcessType(t, [])), Fields(HttpIn([], v, 0, 0));
    assert p[0] == Str(t) && p[1] == Str([]);
    assert h[0] == Str([]) && h[1] == ShortStr(v) && h[2] == U16(0) && h[3] == I64(0);
  }

  /** What fits the structures has a length that fits the header's signed 16-bit field. */
  lemma EncodeSizeFits(e: Event)
    requires EventOk(e)
    ensures 19 <= EncodeSize(e) < 0x8000 && MIN_PAYLOAD <= EncodeSize(e) <= SCRATCH_SIZE == 32768
  {
    hide FieldsOk;
    var fs := Fields(e);
    assert forall i | 0 <= i < |fs| && fs[i].Text? :: |fs[i].s| <= MAX_STRING;
    match e {
      case MethodInfo(_, c, m, _) => assert fs[1] == Str(c) && fs[2] == Str(m);
      case Sql(p, h, d, q, _) => assert fs[1] == Str(p.text) && fs[3] == Str(h.text) && fs[5] == Str(d.text) &&
          fs[7] == Str(q.text);
      case HttpIn(u, v, _, _) => assert fs[0] == Str(u) && fs[1] == ShortStr(v);
      case HttpOut(u, v, _, _) => assert fs[0] == Str(u) && fs[1] == ShortStr(v);
      case ProcessType(t, p) => assert fs[0] == Str(t) && fs[1] == Str(p);
      case BeginTransaction(a, t, p) => assert fs[0] == Str(a) && fs[1] == Str(t) && fs[2] == Str(p);
      case ExceptionThrown(_, c, r) => assert fs[1] == Str(c) && fs[2] == Str(r);
      case _ =>
    }
  }

  lemma SizeOfAppend(fs: seq<Field>, f: Field)
    ensures SizeOf(fs + [f]) == SizeOf(fs) + FieldSize(f)
  {
    assert (fs + [f])[..|fs|] == fs;
  }

  lemma SizeOfList(fs: seq<Field>)
    ensures |fs| == 0 ==> SizeOf(fs) == 0
    ensures |fs| == 1 ==> SizeOf(fs) == FieldSize(fs[0])
    ensures |fs| == 2 ==> SizeOf(fs) == FieldSize(fs[0]) + FieldSize(fs[1])
    ensures |fs| == 3 ==> SizeOf(fs) == FieldSize(fs[0]) + FieldSize(fs[1]) + FieldSize(fs[2])
    ensures |fs| == 4 ==> SizeOf(fs) == FieldSize(fs[0]) + FieldSize(fs[1]) + FieldSize(fs[2]) + FieldSize(fs[3])
  {
    if |fs| > 0 {
      var a := fs[..|fs| - 1];
      if |a| > 0 {
        var b := a[..|a| - 1];
        if |b| > 0 {
          var c := b[..|b| - 1];
          if |c| > 0 {
            assert SizeOf(c) == SizeOf(c[..|c| - 1]) + FieldSize(c[|c| - 1]);
          }
        }
      }
    }
  }

  lemma {:induction false} SizeOfConcat(a: seq<Field>, b: seq<Field>)
    ensures SizeOf(a + b) == SizeOf(a) + SizeOf(b)
  {
    if b == [] {
      assert a + b == a;
    } else {
      SizeOfConcat(a, b[..|b| - 1]);
      assert (a + b)[..|a + b| - 1] == a + b[..|b| - 1];
    }
  }

  /** The size functions agree with what is copied. */
  lemma SizeAgrees(e: Event)
    ensures EncodeSize(e) == MIN_PAYLOAD + SizeOf(Fields(e))
  {
    hide SizeOf;
    var fs := Fields(e);
    if |fs| <= 4 {
      SizeOfList(fs);
    } else {
      SizeOfList(fs[..4]);
      SizeOfConcat(fs[..4], fs[4..]);
      assert fs == fs[..4] + fs[4..];
      if |fs| == 5 {
        SizeOfList(fs[4..]);
      } else {
        SizeOfList(fs[4..8]);
        SizeOfConcat(fs[4..8], fs[8..]);
        assert fs[4..] == fs[4..8] + fs[8..];
        SizeOfList(fs[8..]);
      }
    }
  }

  lemma LayoutOf(e: Event)
    ensures Layout(Code(e)) == Some(ShapesOf(Fields(e)))
  {
    var fs := Fields(e);
    var shapes := ShapesOf(fs);
    assert forall i | 0 <= i < |fs| :: shapes[i] == ShapeOf(fs[i]);
    assert Layout(Code(e)).value == shapes;
  }

  lemma UnsignedFields(fs: seq<Field>)
    requires FieldsOk(fs)
    ensures forall i | 0 <= i < |fs| && fs[i].Num? && !fs[i].signed :: fs[i].v >= 0
  {
    forall i | 0 <= i < |fs| && fs[i].Num? && !fs[i].signed ensures fs[i].v >= 0 {
      assert FieldOk(fs[i]);
    }
  }

  lemma FieldsShape(e: Event)
    requires EventOk(e)
    ensures Layout(Code(e)) == Some(ShapesOf(Fields(e))) && Rebuild(Code(e), Fields(e)) == Some(e)
  {
    hide FieldsOk, FieldOk, ShapesOf, Layout;
    LayoutOf(e);
    UnsignedFields(Fields(e));
  }

  // ---------------------------------------------------------------- messages

  /** The header: length, type, process, thread and time. */
  function HeaderFields(m: Message): seq<Field> {
    [I16(EncodeSize(m.event)), U8(Code(m.event)), U32(m.pid), U32(m.tid), I64(m.timestamp)]
  }

  predicate MessageOk(m: Message) {
    EventOk(m.event) && FieldsOk(HeaderFields(m))
  }

  function Encode(m: Message): Key
    requires MessageOk(m)
  {
    Encoded(HeaderFields(m)) + Encoded(Fields(m.event))
  }

  const HEADER_SHAPE: seq<Shape> :=
    [NumShape(2, true), NumShape(1, false), NumShape(4, false), NumShape(4, false), NumShape(8, true)]

  /** The message at the front of the bytes, and the bytes behind it. */
  function Decode(b: Key): Option<(Message, Key)> {
    match ReadFields(HEADER_SHAPE, b)
    case None => None
    case Some((h, body)) =>
      if |h| != 5 || ShapesOf(h) != HEADER_SHAPE || h[1].v < 0 || h[2].v < 0 || h[3].v < 0 then None
      else
        match Layout(h[1].v)
        case None => None
        case Some(shapes) =>
          match ReadFields(shapes, body)
          case None => None
          case Some((fs, rest)) =>
            if ShapesOf(fs) != shapes then None
            else
              match Rebuild(h[1].v, fs)
              case None => None
              case Some(e) => Some((Message(h[2].v, h[3].v, h[4].v, e), rest))
  }

  /** Decoding the bytes of a message returns it, whatever follows. */
  lemma RoundTrip(m: Message, rest: Key)
    requires MessageOk(m)
    ensures Decode(Encode(m) + rest) == Some((m, rest))
  {
    var h, fs := HeaderFields(m), Fields(m.event);
    assert Encode(m) + rest == Encoded(h) + (Encoded(fs) + rest);
    FieldsBack(h, Encoded(fs) + rest);
    assert ShapesOf(h) == HEADER_SHAPE;
    FieldsShape(m.event);
    FieldsBack(fs, rest);
  }

  /** The bytes start with their own number, as a positive signed 16-bit integer. */
  lemma LengthPrefix(m: Message)
    requires MessageOk(m)
    ensures |Encode(m)| == EncodeSize(m.event) && MIN_PAYLOAD <= |Encode(m)| < 0x8000
    ensures Encode(m)[..2] == Little(|Encode(m)|, 2)
  {
    var h := HeaderFields(m);
    EncodedSize(h);
    EncodedSize(Fields(m.event));
    SizeAgrees(m.event);
    EncodeSizeFits(m.event);
    HeaderSize(m);
    EncodedFront(h);
  }

  // ---------------------------------------------------------------- the wire format written out

  lemma NumBytes(width: nat, signed: bool, v: int)
    requires FieldOk(Num(width, signed, v))
    ensures FieldBytes(Num(width, signed, v)) == Little(if v < 0 then v + Pow(width) else v, width)
  {
  }

  lemma Pow8()
    ensures Pow(8) == 0x1_0000_0000_0000_0000 && Pow(4) == 0x1_0000_0000 && Pow(2) == 0x1_0000 && Pow(1) == 0x100
  {
    assert Pow(4) == 256 * (256 * (256 * 256));
  }

  lemma EncodedTwo(a: Field, b: Field)
    requires FieldsOk([a, b])
    ensures FieldOk(a) && FieldOk(b) && Encoded([a, b]) == FieldBytes(a) + FieldBytes(b)
  {
    assert [a, b][0] == a && [a, b][1] == b;
    hide Encoded, FieldBytes, FieldOk;
    EncodedOne(a);
    assert Front([a, b]) == [a];
    EncodedLast([a, b]);
  }

  lemma EncodedThree(a: Field, b: Field, c: Field)
    requires FieldsOk([a, b, c])
    ensures FieldOk(a) && FieldOk(b) && FieldOk(c)
    ensures Encoded([a, b, c]) == FieldBytes(a) + FieldBytes(b) + FieldBytes(c)
  {
    assert [a, b, c][2] == c;
    hide Encoded, FieldBytes, FieldOk;
    assert Front([a, b, c]) == [a, b];
    EncodedLast([a, b, c]);
    EncodedTwo(a, b);
  }

  lemma EncodedFour(a: Field, b: Field, c: Field, d: Field)
    requires FieldsOk([a, b, c, d])
    ensures FieldOk(a) && FieldOk(b) && FieldOk(c) && FieldOk(d)
    ensures Encoded([a, b, c, d]) == FieldBytes(a) + FieldBytes(b) + FieldBytes(c) + FieldBytes(d)
  {
    assert [a, b, c, d][3] == d;
    hide Encoded, FieldBytes, FieldOk;
    assert Front([a, b, c, d]) == [a, b, c];
    EncodedLast([a, b, c, d]);
    EncodedThree(a, b, c);
  }

  lemma NumberBytes(width: nat, signed: bool, v: int)
    requires FieldOk(Num(width, signed, v)) && width in {1, 2, 4, 8}
    ensures FieldBytes(Num(width, signed, v)) ==
            Little(if v >= 0 then v
                   else if width == 8 then v + 0x1_0000_0000_0000_0000
                   else if width == 4 then v + 0x1_0000_0000
                   else if width == 2 then v + 0x1_0000 else v + 0x100, width)
    ensures width == 8 && signed ==> -0x8000_0000_0000_0000 <= v < 0x8000_0000_0000_0000
    ensures width == 1 && v >= 0 ==> 0 <= v < 0x100 && FieldBytes(Num(width, signed, v)) == [v as Byte]
  {
    Pow8();
    NumBytes(width, signed, v);
    if width == 1 && v >= 0 { LittleDigits(v); }
  }

  lemma TextBytes(prefix: nat, t: Key)
    requires FieldOk(Text(prefix, t))
    ensures FieldBytes(Text(prefix, t)) == Little(|t|, prefix) + t
  {
  }

  lemma BeginOnWire(f: nat, i: nat)
    requires EventOk(Begin(f, i))
    ensures Encoded(Fields(Begin(f, i))) == Little(f, 4) + Little(i, 8) + [0]
  {
    hide FieldOk, FieldBytes, Encoded, Little;
    EncodedThree(U32(f), U64(i), U8(0));
    NumberBytes(4, false, f);
    NumberBytes(8, false, i);
    NumberBytes(1, false, 0);
  }

  lemma EndOnWire(f: nat)
    requires EventOk(End(f))
    ensures Encoded(Fields(End(f))) == Little(f, 4) + [0, 0, 0, 1, 0]
  {
    hide FieldOk, FieldBytes, Encoded, Little;
    var fs := Fields(End(f));
    assert fs == fs[..2] + fs[2..] && FieldsOk(fs[..2]) && FieldsOk(fs[2..]);
    EncodedConcat(fs[..2], fs[2..]);
    assert fs[..2] == [U32(f), I8(0)] && fs[2..] == [I16(0), U8(1), U8(0)];
    EncodedTwo(U32(f), I8(0));
    EncodedThree(I16(0), U8(1), U8(0));
    NumberBytes(4, false, f);
    NumberBytes(1, true, 0);
    NumberBytes(2, true, 0);
    NumberBytes(1, false, 1);
    NumberBytes(1, false, 0);
    LittleDigits(0);
  }

  lemma MethodInfoOnWire(f: nat, c: Key, m: Key, s: nat)
    requires EventOk(MethodInfo(f, c, m, s))
    ensures s < 0x100
    ensures Encoded(Fields(MethodInfo(f, c, m, s))) ==
            Little(f, 4) + (Little(|c|, 2) + c) + (Little(|m|, 2) + m) + [s as Byte]
  {
    hide FieldOk, FieldBytes, Encoded, Little;
    EncodedFour(U32(f), Str(c), Str(m), U8(s));
    NumberBytes(4, false, f);
    TextBytes(2, c);
    TextBytes(2, m);
    NumberBytes(1, false, s);
  }

  /** A string behind its encoding and its length. */
  lemma EncStringOnWire(e: EncString)
    requires FieldsOk([U8(e.encoding), Str(e.text)])
    ensures e.encoding < 0x100
    ensures Encoded([U8(e.encoding), Str(e.text)]) == [e.encoding as Byte] + (Little(|e.text|, 2) + e.text)
  {
    hide FieldOk, FieldBytes, Encoded, Little;
    EncodedTwo(U8(e.encoding), Str(e.text));
    NumberBytes(1, false, e.encoding);
    TextBytes(2, e.text);
  }

  lemma SqlOnWire(p: EncString, h: EncString, d: EncString, q: EncString, t: int)
    requires EventOk(Sql(p, h, d, q, t))
    ensures p.encoding < 0x100 && h.encoding < 0x100 && d.encoding < 0x100 && q.encoding < 0x100
    ensures -0x8000_0000_0000_0000 <= t < 0x8000_0000_0000_0000
    ensures Encoded(Fields(Sql(p, h, d, q, t))) ==
            ([p.encoding as Byte] + (Little(|p.text|, 2) + p.text)) +
            (([h.encoding as Byte] + (Little(|h.text|, 2) + h.text)) +
             (([d.encoding as Byte] + (Little(|d.text|, 2) + d.text)) +
              (([q.encoding as Byte] + (Little(|q.text|, 2) + q.text)) +
               Little(if t >= 0 then t else t + 0x1_0000_0000_0000_0000, 8))))
  {
    hide FieldOk, FieldBytes, Encoded, Little;
    var fs := Fields(Sql(p, h, d, q, t));
    assert fs == fs[..2] + fs[2..] && fs[..2] == [U8(p.encoding), Str(p.text)];
    assert fs[2..] == fs[2..4] + fs[4..] && fs[2..4] == [U8(h.encoding), Str(h.text)];
    assert fs[4..] == fs[4..6] + fs[6..] && fs[4..6] == [U8(d.encoding), Str(d.text)];
    assert fs[6..] == fs[6..8] + fs[8..] && fs[6..8] == [U8(q.encoding), Str(q.text)] && fs[8..] == [I64(t)];
    EncodedConcat(fs[..2], fs[2..]);
    EncodedConcat(fs[2..4], fs[4..]);
    EncodedConcat(fs[4..6], fs[6..]);
    EncodedConcat(fs[6..8], fs[8..]);
    EncStringOnWire(p);
    EncStringOnWire(h);
    EncStringOnWire(d);
    EncStringOnWire(q);
    assert FieldOk(I64(t)) by { assert fs[8] == I64(t); }
    EncodedOne(I64(t));
    NumberBytes(8, true, t);
  }

  /** Incoming and outgoing requests alike. */
  lemma HttpOnWire(e: Event, u: Key, v: Key, c: nat, t: int)
    requires EventOk(e) && (e == HttpIn(u, v, c, t) || e == HttpOut(u, v, c, t))
    ensures |v| < 0x100 && -0x8000_0000_0000_0000 <= t < 0x8000_0000_0000_0000
    ensures Encoded(Fields(e)) ==
            (Little(|u|, 2) + u) + ([|v| as Byte] + v) + Little(c, 2) +
            Little(if t >= 0 then t else t + 0x1_0000_0000_0000_0000, 8)
  {
    hide FieldBytes, Encoded, Little;
    assert Fields(e) == [Str(u), ShortStr(v), U16(c), I64(t)];
    assert FieldOk(Fields(e)[1]);
    Pow8();
    EncodedFour(Str(u), ShortStr(v), U16(c), I64(t));
    hide FieldOk;
    TextBytes(2, u);
    TextBytes(1, v);
    LittleDigits(|v|);
    NumberBytes(2, false, c);
    NumberBytes(8, true, t);
  }

  lemma StringsOnWire(t: Key, p: Key)
    requires EventOk(ProcessType(t, p))
    ensures Encoded(Fields(ProcessType(t, p))) == (Little(|t|, 2) + t) + (Little(|p|, 2) + p)
  {
    hide FieldOk, FieldBytes, Encoded, Little;
    EncodedTwo(Str(t), Str(p));
    TextBytes(2, t);
    TextBytes(2, p);
  }

  lemma TransactionOnWire(a: Key, t: Key, p: Key)
    requires EventOk(BeginTransaction(a, t, p))
    ensures Encoded(Fields(BeginTransaction(a, t, p))) ==
            (Little(|a|, 2) + a) + (Little(|t|, 2) + t) + (Little(|p|, 2) + p)
  {
    hide FieldOk, FieldBytes, Encoded, Little;
    EncodedThree(Str(a), Str(t), Str(p));
    TextBytes(2, a);
    TextBytes(2, t);
    TextBytes(2, p);
  }

  lemma ExceptionOnWire(x: nat, c: Key, r: Key)
    requires EventOk(ExceptionThrown(x, c, r))
    ensures Encoded(Fields(ExceptionThrown(x, c, r))) ==
            Little(x, 8) + (Little(|c|, 2) + c) + (Little(|r|, 2) + r)
  {
    hide FieldOk, FieldBytes, Encoded, Little;
    EncodedThree(U64(x), Str(c), Str(r));
    NumberBytes(8, false, x);
    TextBytes(2, c);
    TextBytes(2, r);
  }

  lemma FrequencyOnWire(f: nat)
    requires EventOk(ProcessFrequency(f))
    ensures Encoded(Fields(ProcessFrequency(f))) == Little(f, 8)
  {
    assert FieldOk(Fields(ProcessFrequency(f))[0]);
    hide FieldBytes, Encoded, Little;
    EncodedOne(U64(f));
    NumberBytes(8, false, f);
  }

  lemma ThreadOnWire(p: nat)
    requires EventOk(ThreadStarted(p))
    ensures Encoded(Fields(ThreadStarted(p))) == Little(p, 4)
  {
    assert FieldOk(Fields(ThreadStarted(p))[0]);
    hide FieldBytes, Encoded, Little;
    EncodedOne(U32(p));
    NumberBytes(4, false, p);
  }

  lemma NothingOnWire()
    ensures Encoded(Fields(EndTransaction)) == Encoded(Fields(ThreadEnded)) == Encoded(Fields(ProcessEnded)) == []
  {
    hide Encoded;
    EncodedNil();
  }

  lemma HeaderOnWire(m: Message)
    requires MessageOk(m)
    ensures Code(m.event) < 0x100 && -0x8000_0000_0000_0000 <= m.timestamp < 0x8000_0000_0000_0000
    ensures Encoded(HeaderFields(m)) ==
            Little(EncodeSize(m.event), 2) + [Code(m.event) as Byte] + (Little(m.pid, 4) + Little(m.tid, 4) +
            Little(if m.timestamp >= 0 then m.timestamp else m.timestamp + 0x1_0000_0000_0000_0000, 8))
  {
    hide FieldOk, FieldBytes, Encoded, Little, Code;
    var h := HeaderFields(m);
    assert h == h[..2] + h[2..];
    EncodedConcat(h[..2], h[2..]);
    assert h[..2] == [I16(EncodeSize(m.event)), U8(Code(m.event))];
    assert h[2..] == [U32(m.pid), U32(m.tid), I64(m.timestamp)];
    EncodedTwo(I16(EncodeSize(m.event)), U8(Code(m.event)));
    EncodedThree(U32(m.pid), U32(m.tid), I64(m.timestamp));
    NumberBytes(2, true, EncodeSize(m.event));
    NumberBytes(1, false, Code(m.event));
    NumberBytes(4, false, m.pid);
    NumberBytes(4, false, m.tid);
    NumberBytes(8, true, m.timestamp);
  }

  /** The header at its offsets, and the type byte of each event. */
  lemma HeaderAt(m: Message)
    requires MessageOk(m)
    ensures var b := Encode(m);
            && 19 <= |b| < 0x8000 && Unlittle(b[..2]) == |b|
            && Unlittle(b[3..7]) == m.pid && Unlittle(b[7..11]) == m.tid
            && Unlittle(b[11..19]) == (if m.timestamp >= 0 then m.timestamp else m.timestamp + 0x1_0000_0000_0000_0000)
            && b[2] == match m.event {
                         case Begin(_, _) => 0x01
                         case End(_) => 0x02
                         case ThreadEnded => 0x08
                         case ProcessEnded => 0x0a
                         case ProcessFrequency(_) => 0x0b
                         case ProcessType(_, _) => 0x0c
                         case MethodInfo(_, _, _, _) => 0x0f
                         case BeginTransaction(_, _, _) => 0x10
                         case EndTransaction => 0x11
                         case ExceptionThrown(_, _, _) => 0x12
                         case ThreadStarted(_) => 0x13
                         case Sql(_, _, _, _, _) => 0x64
                         case HttpIn(_, _, _, _) => 0x65
                         case HttpOut(_, _, _, _) => 0x66
                       }
  {
    LengthPrefix(m);
    HeaderOnWire(m);
    var time := if m.timestamp >= 0 then m.timestamp else m.timestamp + 0x1_0000_0000_0000_0000;
    HeaderRanges(m);
    Pow8();
    LittleBack(EncodeSize(m.event), 2);
    LittleBack(m.pid, 4);
    LittleBack(m.tid, 4);
    LittleBack(time, 8);
    hide Encoded, Little, Unlittle, EncodeSize, MessageOk;
    HeaderCut(Little(EncodeSize(m.event), 2), [Code(m.event) as Byte], Little(m.pid, 4), Little(m.tid, 4),
              Little(time, 8), Encoded(Fields(m.event)));
  }

  lemma HeaderRanges(m: Message)
    requires MessageOk(m)
    ensures FieldsOk(HeaderFields(m)) && FieldsOk(Fields(m.event))
    ensures 0 <= m.pid < 0x1_0000_0000 && 0 <= m.tid < 0x1_0000_0000
  {
    Pow8();
    assert FieldOk(HeaderFields(m)[2]) && FieldOk(HeaderFields(m)[3]);
  }

  lemma HeaderCut(a: Key, b: Key, c: Key, d: Key, e: Key, body: Key)
    requires |a| == 2 && |b| == 1 && |c| == 4 && |d| == 4 && |e| == 8
    ensures var h := a + b + (c + d + e) + body;
            h[..2] == a && h[2] == b[0] && h[3..7] == c && h[7..11] == d && h[11..19] == e && h[19..] == body
  {
    var head := a + b + (c + d + e);
    assert (head + body)[19..] == body && (head + body)[..19] == head;
    assert head[11..19] == e && head[7..11] == d && head[3..7] == c;
  }

  /** The body behind the header. */
  lemma BodyAt(m: Message)
    requires MessageOk(m)
    ensures FieldsOk(Fields(m.event)) && |Encode(m)| >= 19 && Encode(m)[19..] == Encoded(Fields(m.event))
  {
    hide Encoded;
    MessageParts(m);
    EncodedSize(HeaderFields(m));
    HeaderSize(m);
  }

  /** A BEGIN ends with an argument count of 0: no arguments are sent. */
  lemma BeginAt(m: Message)
    requires MessageOk(m) && m.event.Begin?
    ensures var b := Encode(m);
            |b| == 32 && Unlittle(b[19..23]) == m.event.functionId && Unlittle(b[23..31]) == m.event.instanceId &&
            b[31] == 0
  {
    var f, i := m.event.functionId, m.event.instanceId;
    BodyAt(m);
    BeginOnWire(f, i);
    IdRanges(m);
    Pow8();
    LittleBack(f, 4);
    LittleBack(i, 8);
    hide Encode, Encoded, Little, Unlittle, MessageOk;
    BodyCut(Encode(m), Little(f, 4), Little(i, 8) + [0]);
    assert Encode(m)[23..31] == Encode(m)[19..][4..12] == Little(i, 8);
    assert Encode(m)[31] == Encode(m)[19..][12];
  }

  lemma IdRanges(m: Message)
    requires MessageOk(m)
    ensures m.event.Begin? ==> m.event.functionId < 0x1_0000_0000 && m.event.instanceId < 0x1_0000_0000_0000_0000
    ensures m.event.End? ==> m.event.functionId < 0x1_0000_0000
  {
    Pow8();
    var fs := Fields(m.event);
    if m.event.Begin? { assert FieldOk(fs[0]) && FieldOk(fs[1]); }
    if m.event.End? { assert FieldOk(fs[0]); }
  }

  lemma BodyCut(b: Key, head: Key, rest: Key)
    requires |b| >= 19 && b[19..] == head + rest && |head| == 4
    ensures |b| == 23 + |rest| && b[19..23] == head && b[23..] == rest
  {
    assert b[19..][..4] == b[19..23] && b[19..][4..] == b[23..];
  }

  /** The return value of an END: no tail call, no length, the void type, no name. */
  lemma EndAt(m: Message)
    requires MessageOk(m) && m.event.End?
    ensures var b := Encode(m); |b| == 28 && Unlittle(b[19..23]) == m.event.functionId && b[23..28] == [0, 0, 0, 1, 0]
  {
    var f := m.event.functionId;
    BodyAt(m);
    EndOnWire(f);
    IdRanges(m);
    Pow8();
    LittleBack(f, 4);
    hide Encode, Encoded, Little, Unlittle, MessageOk;
    BodyCut(Encode(m), Little(f, 4), [0, 0, 0, 1, 0]);
  }

  // ---------------------------------------------------------------- the encoder

  /** The first k fields have been copied to start, and ptr is behind them. */
  ghost predicate Cursor(m: Key, start: nat, ptr: nat, fs: seq<Field>, k: nat) {
    && FieldsOk(fs) && k <= |fs| && start + SizeOf(fs) <= |m|
    && start <= ptr <= |m| && ptr == start + SizeOf(fs[..k]) && m[start..ptr] == Encoded(fs[..k])
  }

  lemma CursorStart(m: Key, start: nat, fs: seq<Field>)
    requires FieldsOk(fs) && start + SizeOf(fs) <= |m|
    ensures Cursor(m, start, start, fs, 0)
  {
    assert fs[..0] == [];
  }

  lemma FieldBytesSize(f: Field)
    requires FieldOk(f)
    ensures |FieldBytes(f)| == FieldSize(f)
  {
  }

  lemma TakeNext(fs: seq<Field>, k: nat)
    requires FieldsOk(fs) && k < |fs|
    ensures FieldOk(fs[k]) && FieldsOk(fs[..k]) && FieldsOk(fs[..k + 1])
    ensures Encoded(fs[..k + 1]) == Encoded(fs[..k]) + FieldBytes(fs[k])
    ensures SizeOf(fs[..k + 1]) == SizeOf(fs[..k]) + FieldSize(fs[k])
  {
    assert fs[..k + 1] == fs[..k] + [fs[k]] && Front(fs[..k + 1]) == fs[..k];
    SizeOfAppend(fs[..k], fs[k]);
    EncodedLast(fs[..k + 1]);
  }

  lemma SizeOfTake(fs: seq<Field>, k: nat)
    requires k <= |fs|
    ensures SizeOf(fs[..k]) <= SizeOf(fs)
  {
    hide SizeOf, FieldSize;
    SizeOfConcat(fs[..k], fs[k..]);
    assert fs == fs[..k] + fs[k..];
  }

  lemma CursorRoom(m: Key, start: nat, ptr: nat, fs: seq<Field>, k: nat)
    requires Cursor(m, start, ptr, fs, k) && k < |fs|
    ensures FieldOk(fs[k]) && |FieldBytes(fs[k])| == FieldSize(fs[k]) && ptr + FieldSize(fs[k]) <= |m|
  {
    hide Encoded, SizeOf, FieldBytes, FieldSize, FieldsOk, FieldOk;
    TakeNext(fs, k);
    SizeOfTake(fs, k + 1);
    FieldBytesSize(fs[k]);
  }

  lemma CursorNext(m: Key, start: nat, ptr: nat, fs: seq<Field>, k: nat, m': Key)
    requires Cursor(m, start, ptr, fs, k) && k < |fs| && FieldOk(fs[k]) && |m'| == |m|
    requires ptr + FieldSize(fs[k]) <= |m| && m'[..ptr] == m[..ptr]
    requires m'[ptr..ptr + FieldSize(fs[k])] == FieldBytes(fs[k])
    ensures Cursor(m', start, ptr + FieldSize(fs[k]), fs, k + 1)
  {
    hide Encoded, SizeOf, FieldBytes, FieldSize, FieldsOk, FieldOk;
    var next := ptr + FieldSize(fs[k]);
    TakeNext(fs, k);
    assert m'[start..ptr] == m'[..ptr][start..] && m[start..ptr] == m[..ptr][start..];
    assert m'[start..next] == m'[start..ptr] + m'[ptr..next];
  }

  /** memcpy of the next field, and the advance of the pointer. */
  method Put(buf: array<Byte>, ghost start: nat, ptr: nat, f: Field, ghost fs: seq<Field>, ghost k: nat)
    returns (next: nat)
    requires k < |fs| && f == fs[k] && Cursor(buf[..], start, ptr, fs, k)
    modifies buf
    ensures Cursor(buf[..], start, next, fs, k + 1) && buf[..start] == old(buf[..start])
    ensures next == ptr + FieldSize(f) <= buf.Length && forall x | next <= x < buf.Length :: buf[x] == old(buf[x])
  {
    hide Cursor, FieldBytes, Encoded, SizeOf;
    ghost var m := buf[..];
    CursorRoom(m, start, ptr, fs, k);
    CursorOrder(m, start, ptr, fs, k);
    var bytes := FieldBytes(f);
    forall i | 0 <= i < |bytes| {
      buf[ptr + i] := bytes[i];
    }
    next := ptr + |bytes|;
    assert buf[..][..ptr] == m[..ptr] && buf[..][ptr..next] == bytes;
    CursorNext(m, start, ptr, fs, k, buf[..]);
    assert buf[..start] == buf[..][..ptr][..start] && m[..start] == m[..ptr][..start];
  }

  lemma CursorOrder(m: Key, start: nat, ptr: nat, fs: seq<Field>, k: nat)
    requires Cursor(m, start, ptr, fs, k)
    ensures start <= ptr <= |m|
  {
  }

  method EncodeBegin(buf: array<Byte>, at: nat, functionId: nat, instanceId: nat, ghost fs: seq<Field>)
    returns (ptr: nat)
    requires fs == Fields(Begin(functionId, instanceId)) && Cursor(buf[..], at, at, fs, 0)
    modifies buf
    ensures Cursor(buf[..], at, ptr, fs, |fs|) && buf[..at] == old(buf[..at])
  {
    hide Cursor;
    ptr := Put(buf, at, at, U32(functionId), fs, 0);
    ptr := Put(buf, at, ptr, U64(instanceId), fs, 1);
    ptr := Put(buf, at, ptr, U8(0), fs, 2);
  }

  /** The return value is void: no length, its type, no name. */
  method EncodeEnd(buf: array<Byte>, at: nat, functionId: nat, ghost fs: seq<Field>) returns (ptr: nat)
    requires fs == Fields(End(functionId)) && Cursor(buf[..], at, at, fs, 0)
    modifies buf
    ensures Cursor(buf[..], at, ptr, fs, |fs|) && buf[..at] == old(buf[..at])
  {
    hide Cursor;
    ptr := Put(buf, at, at, U32(functionId), fs, 0);
    ptr := Put(buf, at, ptr, I8(0), fs, 1);
    ptr := Put(buf, at, ptr, I16(0), fs, 2);
    ptr := Put(buf, at, ptr, U8(VT_VOID), fs, 3);
    ptr := Put(buf, at, ptr, U8(0), fs, 4);
  }

  method EncodeMethodInfo(buf: array<Byte>, at: nat, functionId: nat, className: Key, methodName: Key, source: nat,
                          ghost fs: seq<Field>)
    returns (ptr: nat)
    requires fs == Fields(MethodInfo(functionId, className, methodName, source)) && Cursor(buf[..], at, at, fs, 0)
    modifies buf
    ensures Cursor(buf[..], at, ptr, fs, |fs|) && buf[..at] == old(buf[..at])
  {
    hide Cursor;
    ptr := Put(buf, at, at, U32(functionId), fs, 0);
    ptr := Put(buf, at, ptr, Str(className), fs, 1);
    ptr := Put(buf, at, ptr, Str(methodName), fs, 2);
    ptr := Put(buf, at, ptr, U8(source), fs, 3);
  }

  method EncodeSql(buf: array<Byte>, at: nat, provider: EncString, host: EncString, database: EncString,
                   query: EncString, duration: int, ghost fs: seq<Field>)
    returns (ptr: nat)
    requires fs == Fields(Sql(provider, host, database, query, duration)) && Cursor(buf[..], at, at, fs, 0)
    modifies buf
    ensures Cursor(buf[..], at, ptr, fs, |fs|) && buf[..at] == old(buf[..at])
  {
    hide Cursor;
    ptr := Put(buf, at, at, U8(provider.encoding), fs, 0);
    ptr := Put(buf, at, ptr, Str(provider.text), fs, 1);
    ptr := Put(buf, at, ptr, U8(host.encoding), fs, 2);
    ptr := Put(buf, at, ptr, Str(host.text), fs, 3);
    ptr := Put(buf, at, ptr, U8(database.encoding), fs, 4);
    ptr := Put(buf, at, ptr, Str(database.text), fs, 5);
    ptr := Put(buf, at, ptr, U8(query.encoding), fs, 6);
    ptr := Put(buf, at, ptr, Str(query.text), fs, 7);
    ptr := Put(buf, at, ptr, I64(duration), fs, 8);
  }

  /** Incoming and outgoing requests are laid out alike. */
  method EncodeHttp(buf: array<Byte>, at: nat, url: Key, verb: Key, status: nat, duration: int, ghost fs: seq<Field>)
    returns (ptr: nat)
    requires fs == Fields(HttpIn(url, verb, status, duration)) && Cursor(buf[..], at, at, fs, 0)
    modifies buf
    ensures Cursor(buf[..], at, ptr, fs, |fs|) && buf[..at] == old(buf[..at])
  {
    hide Cursor;
    ptr := Put(buf, at, at, Str(url), fs, 0);
    ptr := Put(buf, at, ptr, ShortStr(verb), fs, 1);
    ptr := Put(buf, at, ptr, U16(status), fs, 2);
    ptr := Put(buf, at, ptr, I64(duration), fs, 3);
  }

  method EncodeProcessType(buf: array<Byte>, at: nat, technology: Key, process: Key, ghost fs: seq<Field>)
    returns (ptr: nat)
    requires fs == Fields(ProcessType(technology, process)) && Cursor(buf[..], at, at, fs, 0)
    modifies buf
    ensures Cursor(buf[..], at, ptr, fs, |fs|) && buf[..at] == old(buf[..at])
  {
    hide Cursor;
    ptr := Put(buf, at, at, Str(technology), fs, 0);
    ptr := Put(buf, at, ptr, Str(process), fs, 1);
  }

  method EncodeBeginTransaction(buf: array<Byte>, at: nat, apiKey: Key, technology: Key, process: Key,
                                ghost fs: seq<Field>)
    returns (ptr: nat)
    requires fs == Fields(BeginTransaction(apiKey, technology, process)) && Cursor(buf[..], at, at, fs, 0)
    modifies buf
    ensures Cursor(buf[..], at, ptr, fs, |fs|) && buf[..at] == old(buf[..at])
  {
    hide Cursor;
    ptr := Put(buf, at, at, Str(apiKey), fs, 0);
    ptr := Put(buf, at, ptr, Str(technology), fs, 1);
    ptr := Put(buf, at, ptr, Str(process), fs, 2);
  }

  method EncodeExceptionThrown(buf: array<Byte>, at: nat, exceptionId: nat, className: Key, correlationId: Key,
                               ghost fs: seq<Field>)
    returns (ptr: nat)
    requires fs == Fields(ExceptionThrown(exceptionId, className, correlationId)) && Cursor(buf[..], at, at, fs, 0)
    modifies buf
    ensures Cursor(buf[..], at, ptr, fs, |fs|) && buf[..at] == old(buf[..at])
  {
    hide Cursor;
    ptr := Put(buf, at, at, U64(exceptionId), fs, 0);
    ptr := Put(buf, at, ptr, Str(className), fs, 1);
    ptr := Put(buf, at, ptr, Str(correlationId), fs, 2);
  }

  /** The fields of the event from at on. */
  method EncodeBody(buf: array<Byte>, at: nat, e: Event) returns (ptr: nat)
    requires Cursor(buf[..], at, at, Fields(e), 0)
    modifies buf
    ensures Cursor(buf[..], at, ptr, Fields(e), |Fields(e)|) && buf[..at] == old(buf[..at])
  {
    hide Cursor;
    ghost var fs := Fields(e);
    match e {
      case Begin(f, i) => ptr := EncodeBegin(buf, at, f, i, fs);
      case End(f) => ptr := EncodeEnd(buf, at, f, fs);
      case MethodInfo(f, c, m, s) => ptr := EncodeMethodInfo(buf, at, f, c, m, s, fs);
      case Sql(p, h, d, q, t) => ptr := EncodeSql(buf, at, p, h, d, q, t, fs);
      case HttpIn(u, v, s, t) => ptr := EncodeHttp(buf, at, u, v, s, t, fs);
      case HttpOut(u, v, s, t) => ptr := EncodeHttp(buf, at, u, v, s, t, fs);
      case ProcessType(t, p) => ptr := EncodeProcessType(buf, at, t, p, fs);
      case ProcessFrequency(f) => ptr := Put(buf, at, at, U64(f), fs, 0);
      case BeginTransaction(a, t, p) => ptr := EncodeBeginTransaction(buf, at, a, t, p, fs);
      case EndTransaction => ptr := at;
      case ThreadStarted(p) => ptr := Put(buf, at, at, U32(p), fs, 0);
      case ThreadEnded => ptr := at;
      case ProcessEnded => ptr := at;
      case ExceptionThrown(x, c, r) => ptr := EncodeExceptionThrown(buf, at, x, c, r, fs);
    }
  }

  /** rg_encode_header_impl. */
  method EncodeHeader(buf: array<Byte>, length: nat, m: Message, ghost fs: seq<Field>)
    requires length == EncodeSize(m.event) && fs == HeaderFields(m) && Cursor(buf[..], 0, 0, fs, 0)
    modifies buf
    ensures Cursor(buf[..], 0, MIN_PAYLOAD, fs, |fs|) && buf[MIN_PAYLOAD..] == old(buf[MIN_PAYLOAD..])
  {
    hide Cursor;
    var ptr := Put(buf, 0, 0, I16(length), fs, 0);
    ptr := Put(buf, 0, ptr, U8(Code(m.event)), fs, 1);
    ptr := Put(buf, 0, ptr, U32(m.pid), fs, 2);
    ptr := Put(buf, 0, ptr, U32(m.tid), fs, 3);
    ptr := Put(buf, 0, ptr, I64(m.timestamp), fs, 4);
  }

  /** A helper such as rg_begin: the body behind the space of the header, then the header with
      the length of the whole message. */
  method EncodeMessage(buf: array<Byte>, m: Message) returns (size: nat)
    requires MessageOk(m) && buf.Length >= SCRATCH_SIZE
    modifies buf
    ensures size == EncodeSize(m.event) == |Encode(m)| && size <= buf.Length && buf[..size] == Encode(m)
    ensures var b := buf[..size];
            && 19 <= size && Unlittle(b[..2]) == size && Unlittle(b[3..7]) == m.pid && Unlittle(b[7..11]) == m.tid
            && (m.event.Begin? ==>
                  size == 32 && b[2] == 1 && Unlittle(b[19..23]) == m.event.functionId && b[31] == 0)
            && (m.event.End? ==>
                  size == 28 && b[2] == 2 && Unlittle(b[19..23]) == m.event.functionId && b[23..28] == [0, 0, 0, 1, 0])
  {
    hide *;
    HeaderAt(m);
    if m.event.Begin? { BeginAt(m); }
    if m.event.End? { EndAt(m); }
    MessageParts(m);
    LengthPrefix(m);
    EncodeSizeFits(m.event);
    SizeAgrees(m.event);
    HeaderSize(m);
    CursorStart(buf[..], MIN_PAYLOAD, Fields(m.event));
    var ptr := EncodeBody(buf, MIN_PAYLOAD, m.event);
    size := ptr;
    ghost var body := buf[..];
    CursorEnd(body, MIN_PAYLOAD, ptr, Fields(m.event));
    CursorStart(buf[..], 0, HeaderFields(m));
    EncodeHeader(buf, size, m, HeaderFields(m));
    CursorEnd(buf[..], 0, MIN_PAYLOAD, HeaderFields(m));
    assert buf[MIN_PAYLOAD..size] == body[MIN_PAYLOAD..size];
    assert buf[..size] == buf[..MIN_PAYLOAD] + buf[MIN_PAYLOAD..size];
  }

  lemma MessageParts(m: Message)
    requires MessageOk(m)
    ensures EventOk(m.event) && FieldsOk(Fields(m.event)) && FieldsOk(HeaderFields(m))
    ensures Encode(m) == Encoded(HeaderFields(m)) + Encoded(Fields(m.event)) && MIN_PAYLOAD <= SCRATCH_SIZE
  {
  }

  lemma HeaderSize(m: Message)
    ensures SizeOf(HeaderFields(m)) == MIN_PAYLOAD
  {
    var h := HeaderFields(m);
    SizeOfList(h[..4]);
    SizeOfConcat(h[..4], h[4..]);
    assert h == h[..4] + h[4..];
    SizeOfList(h[4..]);
  }

  lemma CursorEnd(m: Key, start: nat, ptr: nat, fs: seq<Field>)
    requires Cursor(m, start, ptr, fs, |fs|)
    ensures start <= ptr <= |m| && FieldsOk(fs) && ptr == start + SizeOf(fs) && m[start..ptr] == Encoded(fs)
  {
    assert fs[..|fs|] == fs;
  }
}
