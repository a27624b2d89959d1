/** Encoding and decoding of MIDI messages (luajack/midi.lua). Message names are represented by
    the constructors of Kind, and a system exclusive message's contents are not part of this model. */
module Midi {
  import opened Bytes
  import opened Wrappers

  datatype Kind =
    | NoteOff | NoteOn | Aftertouch | ControlChange | ProgramChange | ChannelPressure | PitchWheel
    | SystemExclusive | MtcQuarterFrame | SongPosition | SongSelect | TuneRequest | EndOfExclusive
    | Clock | Start | Continue | Stop | ActiveSensing | Reset

  /** name_to_type */
  function TypeOf(k: Kind): byte {
    match k
    case NoteOff => 0x80
    case NoteOn => 0x90
    case Aftertouch => 0xa0
    case ControlChange => 0xb0
    case ProgramChange => 0xc0
    case ChannelPressure => 0xd0
    case PitchWheel => 0xe0
    case SystemExclusive => 0xf0
    case MtcQuarterFrame => 0xf1
    case SongPosition => 0xf2
    case SongSelect => 0xf3
    case TuneRequest => 0xf6
    case EndOfExclusive => 0xf7
    case Clock => 0xf8
    case Start => 0xfa
    case Continue => 0xfb
    case Stop => 0xfc
    case ActiveSensing => 0xfe
    case Reset => 0xff
  }

  /** type_to_name: none where no message is defined. */
  function KindOf(t: int): Option<Kind> {
    match t
    case 0x80 => Some(NoteOff)
    case 0x90 => Some(NoteOn)
    case 0xa0 => Some(Aftertouch)
    case 0xb0 => Some(ControlChange)
    case 0xc0 => Some(ProgramChange)
    case 0xd0 => Some(ChannelPressure)
    case 0xe0 => Some(PitchWheel)
    case 0xf0 => Some(SystemExclusive)
    case 0xf1 => Some(MtcQuarterFrame)
    case 0xf2 => Some(SongPosition)
    case 0xf3 => Some(SongSelect)
    case 0xf6 => Some(TuneRequest)
    case 0xf7 => Some(EndOfExclusive)
    case 0xf8 => Some(Clock)
    case 0xfa => Some(Start)
    case 0xfb => Some(Continue)
    case 0xfc => Some(Stop)
    case 0xfe => Some(ActiveSensing)
    case 0xff => Some(Reset)
    case _ => None
  }

  predicate IsVoice(k: Kind) {
    TypeOf(k) < 0xf0
  }

  /** midi.status. The check of the channel passes its arguments one place too early, so that it
      never fails. */
  function Status(k: Kind, chan: int): int {
    if IsVoice(k) then TypeOf(k) + chan - 1 else TypeOf(k)
  }

  /** midi.decode_status, for a status of 0x80 to 0xff: the message and, for a voice message, the
      channel. */
  function DecodeStatus(status: int): (Option<Kind>, Option<int>)
    requires 0x80 <= status <= 0xff
  {
    if status < 0xf0 then (KindOf(status / 16 * 16), Some(status - status / 16 * 16 + 1))
    else (KindOf(status), None)
  }

  /** A status byte that is put together is taken apart again just when the channel is one of
      the sixteen; note on with channel 17 is taken for aftertouch. */
  lemma StatusExactly(k: Kind, chan: int)
    ensures IsVoice(k) ==>
              (1 <= chan <= 16 <==>
                 0x80 <= Status(k, chan) <= 0xff && DecodeStatus(Status(k, chan)) == (Some(k), Some(chan)))
    ensures !IsVoice(k) ==> DecodeStatus(Status(k, chan)) == (Some(k), None)
    ensures DecodeStatus(Status(NoteOn, 17)) == (Some(Aftertouch), Some(1))
  {
  }

  // ---- fourteen bits ---------------------------------------------------------------------

  function NumToLsbMsb(num: int): (int, int) {
    (num % 128, num / 128)
  }

  function LsbMsbToNum(lsb: int, msb: int): int {
    msb * 128 + lsb
  }

  // ---- controllers -------------------------------------------------------------------------

  /** controller_to_number and number_to_controller. */
  datatype Tables = Tables(toNumber: map<string, int>, toName: map<int, string>)

  /** Each table undoes the other. */
  ghost predicate Inverse(c: Tables) {
    && (forall s :: s in c.toNumber ==> c.toNumber[s] in c.toName && c.toName[c.toNumber[s]] == s)
    && (forall n :: n in c.toName ==> c.toName[n] in c.toNumber && c.toNumber[c.toName[n]] == n)
  }

  /** The module's tables, filled when the script is loaded. */
  class Controllers {
    var tables: Tables

    constructor ()
      ensures Inverse(tables) && tables == Tables(map[], map[])
    {
      tables := Tables(map[], map[]);
    }

    /** definecontroller: a name or a number defined twice is an error. */
    method Define(val: int, name: string) returns (ok: bool)
      requires Inverse(tables)
      modifies this
      ensures Inverse(tables)
      ensures ok <==> name !in old(tables).toNumber && val !in old(tables).toName
      ensures tables == if ok then Tables(old(tables).toNumber[name := val], old(tables).toName[val := name]) else old(tables)
    {
      ok := name !in tables.toNumber && val !in tables.toName;
      if ok {
        tables := Tables(tables.toNumber[name := val], tables.toName[val := name]);
      }
    }

    /** The definitions of the script, one after the other: when none fails, each number has its
        name and each name its number; one fails just when a name or a number comes twice. */
    method DefineAll(list: seq<(int, string)>) returns (ok: bool)
      requires tables == Tables(map[], map[])
      modifies this
      ensures Inverse(tables) && (ok <==> Distinct(list))
      ensures ok ==> tables.toNumber.Keys == Names(list) && tables.toName.Keys == Numbers(list)
      ensures ok ==> forall d :: d in list ==> d.1 in tables.toNumber && tables.toNumber[d.1] == d.0
    {
      ok := true;
      var i := 0;
      assert list[..0] == [];
      assert Loaded(tables, list[..0]);
      hide Loaded, Distinct, Inverse, Names, Numbers;
      while ok && i < |list|
        invariant 0 <= i <= |list| && Inverse(tables)
        invariant if ok then Loaded(tables, list[..i]) else !Distinct(list)
        decreases ok, |list| - i
      {
        assert list[..i + 1] == list[..i] + [list[i]];
        LoadedSnoc(tables, list[..i], list[i]);
        DistinctPrefix(list, i + 1);
        ok := Define(list[i].0, list[i].1);
        i := i + 1;
      }
      assert list[..|list|] == list;
      LoadedMeans(tables, list);
    }
  }

  /** The tables hold the definitions of the list. */
  ghost predicate Loaded(c: Tables, list: seq<(int, string)>) {
    && Distinct(list) && c.toNumber.Keys == Names(list) && c.toName.Keys == Numbers(list)
    && forall d :: d in list ==> d.1 in c.toNumber && c.toNumber[d.1] == d.0
  }

  lemma LoadedMeans(c: Tables, list: seq<(int, string)>)
    ensures Loaded(c, list) ==>
              && Distinct(list) && c.toNumber.Keys == Names(list) && c.toName.Keys == Numbers(list)
              && forall d :: d in list ==> d.1 in c.toNumber && c.toNumber[d.1] == d.0
  {
  }

  lemma LoadedSnoc(c: Tables, list: seq<(int, string)>, d: (int, string))
    requires Loaded(c, list)
    ensures if d.1 !in c.toNumber && d.0 !in c.toName
            then Loaded(Tables(c.toNumber[d.1 := d.0], c.toName[d.0 := d.1]), list + [d])
            else !Distinct(list + [d])
  {
    DistinctSnoc(list, d);
    hide Distinct, Names, Numbers;
  }

  ghost predicate Distinct(list: seq<(int, string)>) {
    forall i, j :: 0 <= i < j < |list| ==> list[i].0 != list[j].0 && list[i].1 != list[j].1
  }

  function Names(list: seq<(int, string)>): set<string> {
    set d | d in list :: d.1
  }

  function Numbers(list: seq<(int, string)>): set<int> {
    set d | d in list :: d.0
  }

  lemma DistinctPrefix(list: seq<(int, string)>, k: nat)
    requires k <= |list|
    ensures Distinct(list) ==> Distinct(list[..k])
  {
  }

  lemma DistinctSnoc(list: seq<(int, string)>, d: (int, string))
    requires Distinct(list)
    ensures Distinct(list + [d]) <==> d.1 !in Names(list) && d.0 !in Numbers(list)
    ensures Names(list + [d]) == Names(list) + {d.1} && Numbers(list + [d]) == Numbers(list) + {d.0}
  {
    var l := list + [d];
    assert forall e :: e in l <==> e in list || e == d;
    if Distinct(l) {
      forall e | e in list ensures e.1 != d.1 && e.0 != d.0 {
        var i :| 0 <= i < |list| && list[i] == e;
        assert l[i] == e && l[|list|] == d;
      }
    } else {
      var i, j :| 0 <= i < j < |l| && (l[i].0 == l[j].0 || l[i].1 == l[j].1);
      assert l[i] in list;
    }
  }

  // ---- messages ------------------------------------------------------------------------------

  /** A message with the arguments of its encoder. */
  datatype Message =
    | Keyed(kind: Kind, chan: int, key: int, amount: int)   // note off, note on, aftertouch
    | Control(chan: int, number: int, value: int)
    | Program(chan: int, program: int)
    | Pressure(chan: int, pressure: int)
    | Wheel(chan: int, wheel: int)
    | Quarter(nnn: int, dddd: int)
    | Position(position: int)
    | Select(song: int)
    | Plain(plain: Kind)

  predicate Ranged(x: int, lo: int, hi: int) {
    lo <= x <= hi
  }

  predicate IsPlain(k: Kind) {
    k.TuneRequest? || k.EndOfExclusive? || k.Clock? || k.Start? || k.Continue? || k.Stop? || k.ActiveSensing? || k.Reset?
  }

  /** The encoders, with their checks in their order. Keyed messages are those of three kinds and
      plain ones those without data; the others have no encoder. */
  function Encode(m: Message): Result<seq<byte>>
    requires m.Keyed? ==> m.kind.NoteOff? || m.kind.NoteOn? || m.kind.Aftertouch?
    requires m.Plain? ==> IsPlain(m.plain)
  {
    match m
    case Keyed(k, chan, key, x) =>
      if !Ranged(chan, 1, 16) then Error("invalid channel")
      else if !Ranged(key, 0, 127) then Error("invalid key")
      else if !Ranged(x, 0, 127) then Error(if k.Aftertouch? then "invalid pressure" else "invalid velocity")
      else Ok([TypeOf(k) + chan - 1, key, x])
    case Control(chan, number, value) =>
      if !Ranged(chan, 1, 16) then Error("invalid channel")
      else if !Ranged(number, 0, 127) then Error("invalid controller number")
      else if !Ranged(value, 0, 127) then Error("invalid value")
      else Ok([0xb0 + chan - 1, number, value])
    case Program(chan, n) =>
      if !Ranged(chan, 1, 16) then Error("invalid channel")
      else if !Ranged(n, 1, 128) then Error("invalid number")
      else Ok([0xc0 + chan - 1, n - 1])
    case Pressure(chan, p) =>
      if !Ranged(chan, 1, 16) then Error("invalid channel")
      else if !Ranged(p, 0, 127) then Error("invalid pressure")
      else Ok([0xd0 + chan - 1, p])
    case Wheel(chan, v) =>
      if !Ranged(chan, 1, 16) then Error("invalid channel")
      else if !Ranged(v, 0, 0x3fff) then Error("invalid value")
      else Ok([0xe0 + chan - 1, NumToLsbMsb(v).0, NumToLsbMsb(v).1])
    case Quarter(nnn, dddd) =>
      if !Ranged(nnn, 0, 7) then Error("invalid mtc quarter frame type")
      else if !Ranged(dddd, 0, 0x0f) then Error("invalid mtc quarter frame nibble value")
      else Ok([0xf1, nnn * 16 + dddd])
    case Position(v) =>
      if !Ranged(v, 0, 0x3fff) then Error("invalid value")
      else Ok([0xf2, NumToLsbMsb(v).0, NumToLsbMsb(v).1])
    case Select(n) =>
      if !Ranged(n, 1, 128) then Error("invalid number") else Ok([0xf3, n - 1])
    case Plain(k) => Ok([TypeOf(k)])
  }

  /** The value of control_change: a number, a word, or nothing. */
  datatype Value = Absent | Word(word: string) | Number(n: int)

  datatype Selector = ByName(name: string) | ByNumber(number: int)

  /** control_change, with a controller by number or by name. */
  function EncodeControl(c: Tables, chan: int, control: Selector, value: Value): Result<seq<byte>> {
    if !Ranged(chan, 1, 16) then Error("invalid channel")
    else if control.ByName? && control.name !in c.toNumber then Error("unknown controller")
    else
      var ctl := if control.ByName? then c.toNumber[control.name] else control.number;
      if control.ByNumber? && !Ranged(ctl, 0, 127) then Error("invalid controller number")
      else match value
        case Absent => Pack3(0xb0 + chan - 1, ctl, 0)
        case Word(w) => if w == "on" then Pack3(0xb0 + chan - 1, ctl, 127)
          else if w == "off" then Pack3(0xb0 + chan - 1, ctl, 0)
          else Error("unkown value")
        case Number(n) => if !Ranged(n, 0, 127) then Error("invalid value") else Pack3(0xb0 + chan - 1, ctl, n)
  }

  /** string.pack of three bytes. */
  function Pack3(a: int, b: int, c: int): Result<seq<byte>> {
    if Ranged(a, 0, 255) && Ranged(b, 0, 255) && Ranged(c, 0, 255) then Ok([a, b, c]) else Error("integer overflow")
  }

  /** The table of parameters that a decoder returns. */
  datatype Par =
    | KeyVelocity(key: int, velocity: int)
    | KeyPressure(key: int, pressure: int)
    | NumberValue(number: int, value: int, controller: Option<string>)
    | OneNumber(number: int)
    | OnePressure(pressure: int)
    | LsbMsb(lsb: int, msb: int, value: int)
    | Mtc(nnn: int, dddd: int, value: int)

  /** What midi.decode returns: an error raised, nil with a reason, or the message's name, channel
      and parameters, where `why` says why there are no parameters. */
  datatype Decoded =
    | Raised
    | Refused
    | Decoded(kind: Option<Kind>, chan: Option<int>, par: Option<Par>, why: Option<string>)

  const SHORT := Some("message too short")
  const UNDEFINED := Some("parameters decoder not defined for this midi message type")

  /** How many bytes the message's decoder wants, the status included. */
  function Need(k: Kind): nat {
    match k
    case NoteOff => 3
    case NoteOn => 3
    case Aftertouch => 3
    case ControlChange => 3
    case PitchWheel => 3
    case SongPosition => 3
    case ProgramChange => 2
    case ChannelPressure => 2
    case MtcQuarterFrame => 2
    case SongSelect => 2
    case _ => 1
  }

  /** The decoding functions, on a message long enough. */
  function Params(c: Tables, k: Kind, msg: seq<byte>): Option<Par>
    requires |msg| >= Need(k)
  {
    match k
    case NoteOff => Some(KeyVelocity(msg[1], msg[2]))
    case NoteOn => Some(KeyVelocity(msg[1], msg[2]))
    case Aftertouch => Some(KeyPressure(msg[1], msg[2]))
    case ControlChange =>
      Some(NumberValue(msg[1], msg[2], if msg[1] in c.toName then Some(c.toName[msg[1]]) else None))
    case PitchWheel => Some(LsbMsb(msg[1], msg[2], LsbMsbToNum(msg[1], msg[2])))
    case SongPosition => Some(LsbMsb(msg[1], msg[2], LsbMsbToNum(msg[1], msg[2])))
    case ProgramChange => Some(OneNumber(msg[1] as int + 1))
    case SongSelect => Some(OneNumber(msg[1] as int + 1))
    case ChannelPressure => Some(OnePressure(msg[1]))
    case MtcQuarterFrame => Some(Mtc(msg[1] / 16, msg[1] % 16, msg[1]))
    case _ => None
  }

  /** midi.decode */
  function Decode(c: Tables, msg: seq<byte>): Decoded {
    if msg == [] then Raised
    else if msg[0] < 0x80 then Refused
    else
      var (kind, chan) := DecodeStatus(msg[0]);
      if kind.None? || kind.value.SystemExclusive? then Decoded(kind, chan, None, UNDEFINED)
      else if |msg| < Need(kind.value) then Decoded(kind, chan, None, SHORT)
      else Decoded(kind, chan, Params(c, kind.value, msg), None)
  }

  /** The channel, where there is one. */
  function Channel(d: Decoded): int {
    if d.Decoded? && d.chan.Some? then d.chan.value else 0
  }

  /** The message that a complete decoding speaks of. */
  function Described(d: Decoded): Option<Message> {
    if !d.Decoded? || d.kind.None? || d.why.Some? then None
    else if IsPlain(d.kind.value) then Some(Plain(d.kind.value))
    else if d.par.None? then None
    else match d.par.value
      case KeyVelocity(key, v) => Some(Keyed(d.kind.value, Channel(d), key, v))
      case KeyPressure(key, p) => Some(Keyed(d.kind.value, Channel(d), key, p))
      case NumberValue(n, v, _) => Some(Control(Channel(d), n, v))
      case OneNumber(n) => if d.kind.value.SongSelect? then Some(Select(n)) else Some(Program(Channel(d), n))
      case OnePressure(p) => Some(Pressure(Channel(d), p))
      case LsbMsb(_, _, v) => if d.kind.value.SongPosition? then Some(Position(v)) else Some(Wheel(Channel(d), v))
      case Mtc(nnn, dddd, _) => Some(Quarter(nnn, dddd))
  }

  predicate Encodable(m: Message) {
    && (m.Keyed? ==> m.kind.NoteOff? || m.kind.NoteOn? || m.kind.Aftertouch?)
    && (m.Plain? ==> IsPlain(m.plain))
  }

  lemma StatusOf(k: Kind, chan: int)
    requires IsVoice(k) && Ranged(chan, 1, 16)
    ensures DecodeStatus(TypeOf(k) + chan - 1) == (Some(k), Some(chan))
  {
    StatusExactly(k, chan);
  }

  lemma PlainStatus(k: Kind)
    requires !IsVoice(k)
    ensures DecodeStatus(TypeOf(k)) == (Some(k), None)
  {
  }

  /** Fourteen bits go into two data bytes and back, and from two bytes just when the low one is
      a data byte. */
  lemma FourteenBits(num: int, lsb: byte, msb: byte)
    ensures LsbMsbToNum(NumToLsbMsb(num).0, NumToLsbMsb(num).1) == num
    ensures Ranged(num, 0, 0x3fff) ==> Ranged(NumToLsbMsb(num).0, 0, 127) && Ranged(NumToLsbMsb(num).1, 0, 127)
    ensures NumToLsbMsb(LsbMsbToNum(lsb, msb)) == (lsb, msb) <==> lsb < 128
    ensures lsb < 128 ==> (Ranged(LsbMsbToNum(lsb, msb), 0, 0x3fff) <==> msb < 128)
  {
  }

  /** Decoding, once the status byte is known. */
  lemma DecodedAs(c: Tables, b: seq<byte>, k: Kind, chan: Option<int>)
    requires |b| >= Need(k) && !k.SystemExclusive? && b[0] >= 0x80 && DecodeStatus(b[0]) == (Some(k), chan)
    ensures Decode(c, b) == Decoded(Some(k), chan, Params(c, k, b), None)
  {
  }

  lemma VoiceDecoded(c: Tables, b: seq<byte>, k: Kind, chan: int)
    requires |b| >= Need(k) && IsVoice(k) && Ranged(chan, 1, 16) && b[0] == TypeOf(k) + chan - 1
    ensures Decode(c, b) == Decoded(Some(k), Some(chan), Params(c, k, b), None)
  {
    StatusOf(k, chan);
    DecodedAs(c, b, k, Some(chan));
  }

  lemma CommonDecoded(c: Tables, b: seq<byte>, k: Kind)
    requires |b| >= Need(k) && !IsVoice(k) && !k.SystemExclusive? && b[0] == TypeOf(k)
    ensures Decode(c, b) == Decoded(Some(k), None, Params(c, k, b), None)
  {
    PlainStatus(k);
    DecodedAs(c, b, k, None);
  }

  lemma ControlDecoded(c: Tables, chan: int, n: int, v: int)
    requires Encode(Control(chan, n, v)).Ok?
    ensures Described(Decode(c, Encode(Control(chan, n, v)).value)) == Some(Control(chan, n, v))
  {
    VoiceDecoded(c, Encode(Control(chan, n, v)).value, ControlChange, chan);
    hide Decode;
  }

  lemma ProgramDecoded(c: Tables, chan: int, n: int)
    requires Encode(Program(chan, n)).Ok?
    ensures Described(Decode(c, Encode(Program(chan, n)).value)) == Some(Program(chan, n))
  {
    VoiceDecoded(c, Encode(Program(chan, n)).value, ProgramChange, chan);
    hide Decode;
  }

  lemma PressureDecoded(c: Tables, chan: int, p: int)
    requires Encode(Pressure(chan, p)).Ok?
    ensures Described(Decode(c, Encode(Pressure(chan, p)).value)) == Some(Pressure(chan, p))
  {
    VoiceDecoded(c, Encode(Pressure(chan, p)).value, ChannelPressure, chan);
    hide Decode;
  }

  lemma QuarterDecoded(c: Tables, nnn: int, dddd: int)
    requires Encode(Quarter(nnn, dddd)).Ok?
    ensures Described(Decode(c, Encode(Quarter(nnn, dddd)).value)) == Some(Quarter(nnn, dddd))
  {
    CommonDecoded(c, Encode(Quarter(nnn, dddd)).value, MtcQuarterFrame);
    hide Decode;
  }

  lemma SelectDecoded(c: Tables, n: int)
    requires Encode(Select(n)).Ok?
    ensures Described(Decode(c, Encode(Select(n)).value)) == Some(Select(n))
  {
    CommonDecoded(c, Encode(Select(n)).value, SongSelect);
    hide Decode;
  }

  lemma KeyedDecoded(c: Tables, k: Kind, chan: int, key: int, x: int)
    requires Encodable(Keyed(k, chan, key, x)) && Encode(Keyed(k, chan, key, x)).Ok?
    ensures Described(Decode(c, Encode(Keyed(k, chan, key, x)).value)) == Some(Keyed(k, chan, key, x))
  {
    VoiceDecoded(c, Encode(Keyed(k, chan, key, x)).value, k, chan);
    hide Decode;
  }

  lemma PlainDecoded(c: Tables, k: Kind)
    requires IsPlain(k)
    ensures Described(Decode(c, Encode(Plain(k)).value)) == Some(Plain(k))
  {
    CommonDecoded(c, Encode(Plain(k)).value, k);
    hide Decode;
  }

  lemma WheelDecoded(c: Tables, chan: int, v: int)
    requires Encode(Wheel(chan, v)).Ok?
    ensures Described(Decode(c, Encode(Wheel(chan, v)).value)) == Some(Wheel(chan, v))
  {
    VoiceDecoded(c, Encode(Wheel(chan, v)).value, PitchWheel, chan);
    FourteenBits(v, 0, 0);
    hide Decode, NumToLsbMsb, LsbMsbToNum;
  }

  lemma PositionDecoded(c: Tables, v: int)
    requires Encode(Position(v)).Ok?
    ensures Described(Decode(c, Encode(Position(v)).value)) == Some(Position(v))
  {
    CommonDecoded(c, Encode(Position(v)).value, SongPosition);
    FourteenBits(v, 0, 0);
    hide Decode, NumToLsbMsb, LsbMsbToNum;
  }

  /** Whatever an encoder accepts is decoded to the same message. */
  lemma DecodeEncode(c: Tables, m: Message)
    requires Encodable(m) && Encode(m).Ok?
    ensures Described(Decode(c, Encode(m).value)) == Some(m)
  {
    hide Decode, Described, Encode;
    match m
    case Keyed(k, chan, key, x) => KeyedDecoded(c, k, chan, key, x);
    case Control(chan, n, v) => ControlDecoded(c, chan, n, v);
    case Program(chan, n) => ProgramDecoded(c, chan, n);
    case Pressure(chan, p) => PressureDecoded(c, chan, p);
    case Wheel(chan, v) => WheelDecoded(c, chan, v);
    case Quarter(nnn, dddd) => QuarterDecoded(c, nnn, dddd);
    case Position(v) => PositionDecoded(c, v);
    case Select(n) => SelectDecoded(c, n);
    case Plain(k) => PlainDecoded(c, k);
  }

  /** The decoding is that of a message whose status byte is the first of `b`. */
  ghost predicate Heads(d: Decoded, c: Tables, b: seq<byte>) {
    && Described(d).Some? && |b| >= Need(d.kind.value) && !d.kind.value.SystemExclusive?
    && (if IsVoice(d.kind.value)
        then d.chan.Some? && Ranged(Channel(d), 1, 16) && b[0] == TypeOf(d.kind.value) + Channel(d) - 1
        else b[0] == TypeOf(d.kind.value))
    && d.par == Params(c, d.kind.value, b)
  }

  /** The status byte says which message it is. */
  lemma StatusByte(c: Tables, b: seq<byte>)
    requires Described(Decode(c, b)).Some?
    ensures Heads(Decode(c, b), c, b)
  {
  }

  /** A decoded message is encoded to the same bytes just when there are no bytes too many and
      every data byte is below 128: the decoders check neither. */
  lemma EncodeDecode(c: Tables, b: seq<byte>)
    requires Described(Decode(c, b)).Some?
    ensures var m := Described(Decode(c, b)).value;
            Encodable(m) && (Encode(m) == Ok(b) <==>
              |b| == Need(Decode(c, b).kind.value) && DataBytes(b))
  {
    StatusByte(c, b);
    Reencoded(Decode(c, b), c, b);
  }

  predicate DataBytes(b: seq<byte>) {
    forall i :: 1 <= i < |b| ==> b[i] < 128
  }

  lemma Reencoded(d: Decoded, c: Tables, b: seq<byte>)
    requires Heads(d, c, b)
    ensures var m := Described(d).value;
            Encodable(m) && (Encode(m) == Ok(b) <==> |b| == Need(d.kind.value) && DataBytes(b))
  {
    match d.kind.value
    case NoteOff => ReencodedKeyed(d, c, b);
    case NoteOn => ReencodedKeyed(d, c, b);
    case Aftertouch => ReencodedKeyed(d, c, b);
    case ControlChange => ReencodedControl(d, c, b);
    case PitchWheel => Reencoded14(d, c, b);
    case SongPosition => Reencoded14(d, c, b);
    case ProgramChange => Reencoded7(d, c, b);
    case ChannelPressure => Reencoded7(d, c, b);
    case SongSelect => Reencoded7(d, c, b);
    case MtcQuarterFrame => Reencoded7(d, c, b);
    case SystemExclusive =>
    case _ => assert |b| == 1 ==> b == [b[0]];
  }

  lemma ReencodedKeyed(d: Decoded, c: Tables, b: seq<byte>)
    requires Heads(d, c, b) && (d.kind.value.NoteOff? || d.kind.value.NoteOn? || d.kind.value.Aftertouch?)
    ensures Described(d) == Some(Keyed(d.kind.value, Channel(d), b[1], b[2]))
    ensures Encode(Described(d).value) == Ok(b) <==> |b| == 3 && DataBytes(b)
  {
    assert |b| == 3 ==> b == [b[0], b[1], b[2]];
  }

  lemma ReencodedControl(d: Decoded, c: Tables, b: seq<byte>)
    requires Heads(d, c, b) && d.kind.value.ControlChange?
    ensures Described(d) == Some(Control(Channel(d), b[1], b[2]))
    ensures Encode(Described(d).value) == Ok(b) <==> |b| == 3 && DataBytes(b)
  {
    assert |b| == 3 ==> b == [b[0], b[1], b[2]];
  }

  lemma Reencoded14(d: Decoded, c: Tables, b: seq<byte>)
    requires Heads(d, c, b) && (d.kind.value.PitchWheel? || d.kind.value.SongPosition?)
    ensures Encodable(Described(d).value)
    ensures Encode(Described(d).value) == Ok(b) <==> |b| == 3 && DataBytes(b)
  {
    Rejoined(b);
    hide NumToLsbMsb, LsbMsbToNum, DataBytes;
  }

  /** Two data bytes joined to a number and split again. */
  lemma Rejoined(b: seq<byte>)
    requires |b| >= 3
    ensures var v := LsbMsbToNum(b[1], b[2]);
            |b| == 3 && DataBytes(b) <==>
              Ranged(v, 0, 0x3fff) && [b[0] as int, NumToLsbMsb(v).0, NumToLsbMsb(v).1] == b
  {
    FourteenBits(0, b[1], b[2]);
    hide NumToLsbMsb, LsbMsbToNum;
    if |b| == 3 {
      assert DataBytes(b) <==> b[1] < 128 && b[2] < 128;
      assert b == [b[0], b[1], b[2]];
    }
  }

  lemma Reencoded7(d: Decoded, c: Tables, b: seq<byte>)
    requires Heads(d, c, b)
    requires var k := d.kind.value; k.ProgramChange? || k.ChannelPressure? || k.SongSelect? || k.MtcQuarterFrame?
    ensures Encodable(Described(d).value)
    ensures Encode(Described(d).value) == Ok(b) <==> |b| == 2 && DataBytes(b)
  {
    assert |b| == 2 ==> b == [b[0], b[1]];
  }

  /** A controller change by name carries the number that has the name, and decodes with it. */
  lemma ControlByName(c: Tables, chan: int, name: string, n: int)
    requires Inverse(c) && Ranged(chan, 1, 16) && Ranged(n, 0, 127)
    requires name in c.toNumber && Ranged(c.toNumber[name], 0, 127)
    ensures var r := EncodeControl(c, chan, ByName(name), Number(n));
            r.Ok? && r == EncodeControl(c, chan, ByNumber(c.toNumber[name]), Number(n)) &&
            r == Encode(Control(chan, c.toNumber[name], n)) &&
            Decode(c, r.value) ==
              Decoded(Some(ControlChange), Some(chan), Some(NumberValue(c.toNumber[name], n, Some(name))), None)
  {
    StatusOf(ControlChange, chan);
  }

  /** A controller change without a value sends zero, "on" sends 127 and "off" zero, a number sends
      itself if it is a data byte, and nothing else is accepted. */
  lemma ControlValues(c: Tables, chan: int, n: int, w: string, v: int)
    requires 1 <= chan <= 16 && 0 <= n <= 127
    ensures EncodeControl(c, chan, ByNumber(n), Absent) == Ok([0xb0 + chan - 1, n, 0])
    ensures EncodeControl(c, chan, ByNumber(n), Word("on")) == Ok([0xb0 + chan - 1, n, 127])
    ensures EncodeControl(c, chan, ByNumber(n), Word("off")) == Ok([0xb0 + chan - 1, n, 0])
    ensures w != "on" && w != "off" ==> EncodeControl(c, chan, ByNumber(n), Word(w)).Error?
    ensures 0 <= v <= 127 ==> EncodeControl(c, chan, ByNumber(n), Number(v)) == Ok([0xb0 + chan - 1, n, v])
    ensures !(0 <= v <= 127) ==> EncodeControl(c, chan, ByNumber(n), Number(v)).Error?
  {
  }

  /** By a name the same is sent as by the number that the name stands for; a channel, a number or a
      name that does not exist is refused. */
  lemma ControlSelected(c: Tables, chan: int, name: string, n: int, value: Value)
    ensures name in c.toNumber && 0 <= c.toNumber[name] <= 127 ==>
              EncodeControl(c, chan, ByName(name), value) == EncodeControl(c, chan, ByNumber(c.toNumber[name]), value)
    ensures name !in c.toNumber ==> EncodeControl(c, chan, ByName(name), value).Error?
    ensures !(0 <= n <= 127) ==> EncodeControl(c, chan, ByNumber(n), value).Error?
    ensures !(1 <= chan <= 16) ==> EncodeControl(c, chan, ByNumber(n), value).Error?
  {
  }

  // ---- what goes over the wire ------------------------------------------------------------

  /** The status byte of each message, channel one where it has a channel. */
  lemma StatusBytes(k: Kind)
    ensures Status(k, 1) ==
      match k
      case NoteOff => 128 case NoteOn => 144 case Aftertouch => 160 case ControlChange => 176
      case ProgramChange => 192 case ChannelPressure => 208 case PitchWheel => 224 case SystemExclusive => 240
      case MtcQuarterFrame => 241 case SongPosition => 242 case SongSelect => 243 case TuneRequest => 246
      case EndOfExclusive => 247 case Clock => 248 case Start => 250 case Continue => 251 case Stop => 252
      case ActiveSensing => 254 case Reset => 255
  {
  }

  /** The bytes that the encoders of channel messages make, and when they make any. */
  lemma VoiceBytes(k: Kind, chan: int, a: int, b: int)
    requires k.NoteOff? || k.NoteOn? || k.Aftertouch?
    ensures var ok := 1 <= chan <= 16 && 0 <= a <= 127 && 0 <= b <= 127;
            var status := (if k.NoteOff? then 127 else if k.NoteOn? then 143 else 159) + chan;
            if ok then Encode(Keyed(k, chan, a, b)) == Ok([status, a, b]) else Encode(Keyed(k, chan, a, b)).Error?
    ensures if 1 <= chan <= 16 && 1 <= a <= 128 then Encode(Program(chan, a)) == Ok([191 + chan, a - 1])
            else Encode(Program(chan, a)).Error?
    ensures if 1 <= chan <= 16 && 0 <= a <= 127 then Encode(Pressure(chan, a)) == Ok([207 + chan, a])
            else Encode(Pressure(chan, a)).Error?
    ensures if 1 <= chan <= 16 && 0 <= a <= 16383 then Encode(Wheel(chan, a)) == Ok([223 + chan, a % 128, a / 128])
            else Encode(Wheel(chan, a)).Error?
  {
  }

  /** The same of the common and real-time messages. */
  lemma CommonBytes(a: int, b: int)
    ensures if 0 <= a <= 7 && 0 <= b <= 15 then Encode(Quarter(a, b)) == Ok([241, 16 * a + b])
            else Encode(Quarter(a, b)).Error?
    ensures if 0 <= a <= 16383 then Encode(Position(a)) == Ok([242, a % 128, a / 128]) else Encode(Position(a)).Error?
    ensures if 1 <= a <= 128 then Encode(Select(a)) == Ok([243, a - 1]) else Encode(Select(a)).Error?
  {
  }

  /** A message without data is its status byte. */
  lemma PlainBytes(k: Kind)
    requires IsPlain(k)
    ensures Encode(Plain(k)) == Ok([Status(k, 1)])
  {
  }

  /** The first byte says which message it is, and on which channel. */
  lemma StatusRead(b: byte)
    requires b >= 128
    ensures var (kind, chan) := DecodeStatus(b);
            && (chan == if b < 240 then Some(b % 16 + 1) else None)
            && kind ==
                 if b < 144 then Some(NoteOff) else if b < 160 then Some(NoteOn) else if b < 176 then Some(Aftertouch)
                 else if b < 192 then Some(ControlChange) else if b < 208 then Some(ProgramChange)
                 else if b < 224 then Some(ChannelPressure) else if b < 240 then Some(PitchWheel)
                 else if b == 240 then Some(SystemExclusive) else if b == 241 then Some(MtcQuarterFrame)
                 else if b == 242 then Some(SongPosition) else if b == 243 then Some(SongSelect)
                 else if b == 246 then Some(TuneRequest) else if b == 247 then Some(EndOfExclusive)
                 else if b == 248 then Some(Clock) else if b == 250 then Some(Start) else if b == 251 then Some(Continue)
                 else if b == 252 then Some(Stop) else if b == 254 then Some(ActiveSensing)
                 else if b == 255 then Some(Reset) else None
  {
    assert b / 16 * 16 == b - b % 16;
  }

  /** What the decoders return: the data bytes, and what they say. */
  lemma ParamsRead(c: Tables, k: Kind, b: seq<byte>)
    requires |b| >= 3
    ensures k.NoteOff? || k.NoteOn? ==> Params(c, k, b) == Some(KeyVelocity(b[1], b[2]))
    ensures k.Aftertouch? ==> Params(c, k, b) == Some(KeyPressure(b[1], b[2]))
    ensures k.ControlChange? ==> var p := Params(c, k, b);
              p.Some? && p.value.NumberValue? && p.value.number == b[1] && p.value.value == b[2] &&
              (p.value.controller.Some? <==> b[1] in c.toName) &&
              (b[1] in c.toName ==> p.value.controller.value == c.toName[b[1]])
    ensures k.PitchWheel? || k.SongPosition? ==> Params(c, k, b) == Some(LsbMsb(b[1], b[2], b[1] as int + 128 * (b[2] as int)))
    ensures k.ProgramChange? || k.SongSelect? ==> Params(c, k, b) == Some(OneNumber(b[1] as int + 1))
    ensures k.ChannelPressure? ==> Params(c, k, b) == Some(OnePressure(b[1]))
    ensures k.MtcQuarterFrame? ==> var p := Params(c, k, b);
              p.Some? && p.value.Mtc? && p.value.value == b[1] && p.value.value == 16 * p.value.nnn + p.value.dddd
              && 0 <= p.value.dddd < 16
  {
  }

  /** A decoder raises an error on no bytes, refuses a first byte that is not a status, and otherwise
      names the message; it has no parameters if the message is not defined or too short, and says
      which. */
  lemma DecodeExactly(c: Tables, b: seq<byte>)
    ensures b == [] ==> Decode(c, b) == Raised
    ensures b != [] && b[0] < 128 ==> Decode(c, b) == Refused
    ensures b != [] && b[0] >= 128 ==>
              var (kind, chan) := DecodeStatus(b[0]);
              var defined := kind.Some? && kind != Some(SystemExclusive);
              var need := if b[0] < 192 || 224 <= b[0] < 240 || b[0] == 242 then 3
                          else if b[0] < 224 || b[0] == 241 || b[0] == 243 then 2 else 1;
              if !defined then Decode(c, b) == Decoded(kind, chan, None, UNDEFINED)
              else if |b| < need then Decode(c, b) == Decoded(kind, chan, None, Some("message too short"))
              else need == Need(kind.value) && Decode(c, b) == Decoded(kind, chan, Params(c, kind.value, b), None)
  {
    if b != [] && b[0] >= 128 {
      StatusRead(b[0]);
      hide DecodeStatus;
    }
  }

  // ---- timed messages ---------------------------------------------------------------------

  function TMsg(time: uint32, msg: seq<byte>): seq<byte> {
    Bytes.Word(time) + msg
  }

  /** midi.time_msg: an error on fewer than four bytes. */
  function TimeMsg(tmsg: seq<byte>): Option<(uint32, seq<byte>)> {
    if |tmsg| < 4 then None else Some((Unword(tmsg[..4]), tmsg[4..]))
  }

  lemma TimedRoundTrip(time: uint32, msg: seq<byte>)
    ensures TimeMsg(TMsg(time, msg)) == Some((time, msg))
    ensures |TMsg(time, msg)| == 4 + |msg| && TMsg(time, msg)[4..] == msg
    ensures var b := TMsg(time, msg);
            time == b[0] as int + 256 * (b[1] as int) + 65536 * (b[2] as int) + 16777216 * (b[3] as int)
  {
    WordUnword(time);
    assert TMsg(time, msg)[..4] == Bytes.Word(time);
  }
}
