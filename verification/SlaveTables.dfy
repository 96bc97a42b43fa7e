/** The slave's data tables and the constants of the board they live on. */
module SlaveTables {
  import opened Bytes

  const MAX_REGISTERS := 256
  const MAX_COILS := 128
  const FILE_COUNT := 4
  const FILE_SIZE := 128
  const FIFO_COUNT := 2
  const FIFO_DEPTH := 31
  const DI_COUNT := 8
  const AI_COUNT := 4
  const AI_CACHE := 100
  const DO_COUNT := 8
  const RELAY_COUNT := 4
  const AO_COUNT := 2

  const ILLEGAL_FUNCTION: byte := 1
  const ILLEGAL_ADDRESS: byte := 2
  const ILLEGAL_VALUE: byte := 3

  type Files = seq<seq<word>>

  /** What the write hook last told the output drivers. */
  datatype Outputs = Outputs(digital: seq<bool>, relays: seq<bool>, analog: seq<word>)

  datatype Tables = Tables(
    holding: seq<word>,
    input: seq<word>,
    coils: seq<bool>,
    discrete: seq<bool>,
    files: Files,
    fifos: seq<seq<word>>,
    outputs: Outputs)
  {
    predicate Valid() {
      && |holding| == MAX_REGISTERS && |input| == MAX_REGISTERS
      && |coils| == MAX_COILS && |discrete| == MAX_COILS
      && FilesValid(files)
      && |fifos| == FIFO_COUNT && forall f | 0 <= f < FIFO_COUNT :: |fifos[f]| <= FIFO_DEPTH
    }
  }

  function Repeated<T>(n: nat, x: T): (s: seq<T>)
    ensures |s| == n && forall i | 0 <= i < n :: s[i] == x
  {
    seq(n, _ => x)
  }

  /** Every table zero, every queue empty, every output off. */
  function ZeroTables(): (t: Tables)
    ensures t.Valid()
  {
    var file := Repeated(FILE_SIZE, 0);
    Tables(Repeated(MAX_REGISTERS, 0), Repeated(MAX_REGISTERS, 0), Repeated(MAX_COILS, false),
           Repeated(MAX_COILS, false), [file, file, file, file], [[], []],
           Outputs(Repeated(DO_COUNT, false), Repeated(RELAY_COUNT, false), Repeated(AO_COUNT, 0)))
  }

  predicate FilesValid(files: Files) {
    |files| == FILE_COUNT && forall f | 0 <= f < FILE_COUNT :: |files[f]| == FILE_SIZE
  }

  /** s with `part` written over it at position `at`. */
  function Splice<T>(s: seq<T>, at: nat, part: seq<T>): (r: seq<T>)
    requires at + |part| <= |s|
    ensures |r| == |s|
    ensures r[at..at + |part|] == part
    ensures forall i | 0 <= i < |s| && !(at <= i < at + |part|) :: r[i] == s[i]
  {
    s[..at] + part + s[at + |part|..]
  }

  predicate RangeValid(start: word, quantity: word, size: nat) {
    start < size && quantity <= size - start
  }

  /** The exception reply: the function code with bit 7 set, then the code. */
  function Exception(fc: byte, code: byte): (pdu: seq<byte>)
    ensures |pdu| == 2 && pdu[0] >= 128
  {
    [if fc < 128 then fc + 128 else fc, code]
  }

  /** The discrete snapshot takes the eight debounced inputs. */
  function RefreshDiscrete(t: Tables, di: byte): (u: Tables)
    requires t.Valid()
    ensures u.Valid() && u.holding == t.holding && u.coils == t.coils && u.input == t.input
    ensures u.files == t.files && u.fifos == t.fifos && u.outputs == t.outputs
  {
    t.(discrete := Splice(t.discrete, 0, UnpackBits([di], DI_COUNT)))
  }

  /** The first input registers mirror the AI cache held in holding registers 100 and up. */
  function RefreshInput(t: Tables): (u: Tables)
    requires t.Valid()
    ensures u.Valid() && u.holding == t.holding && u.coils == t.coils && u.discrete == t.discrete
    ensures u.files == t.files && u.fifos == t.fifos && u.outputs == t.outputs
  {
    t.(input := Splice(t.input, 0, t.holding[AI_CACHE..AI_CACHE + AI_COUNT]))
  }

  /** The outputs the hook derives: coils 0 to 7, coils 8 to 11 for the relays, holding registers 0 and 1. */
  function OutputsOf(t: Tables): Outputs
    requires t.Valid()
  {
    Outputs(t.coils[..DO_COUNT], t.coils[DO_COUNT..DO_COUNT + RELAY_COUNT], t.holding[..AO_COUNT])
  }

  /** The default sync hook, with the board inputs as the byte it reads. */
  function Sync(t: Tables, di: byte): (u: Tables)
    requires t.Valid()
    ensures u.Valid() && u.holding == t.holding && u.coils == t.coils && u.files == t.files && u.fifos == t.fifos
    ensures u.outputs == OutputsOf(u)
  {
    RefreshInput(RefreshDiscrete(t.(outputs := OutputsOf(t)), di))
  }
}
