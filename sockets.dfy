/** The straight-line bindings of src/nanomsg-hx.cpp: each one makes a single
    nanomsg call and turns the integer it returns into a Haxe value or an error.
    The nanomsg call itself is not modelled; its return value is a parameter. */
module SocketCalls {
  import opened Outcomes

  /** The three tests the bindings apply to a nanomsg return value. */
  datatype Sentinel =
    | Negative  // ret < 0
    | NonZero   // ret != 0
    | MinusOne  // ret == -1

  predicate Fails(test: Sentinel, ret: int)
  {
    match test
    case Negative => ret < 0
    case NonZero => ret != 0
    case MinusOne => ret == -1
  }

  /** The integer a Haxe caller sees: the returned value, or the code the error carries. */
  function Code(r: Result<int>): (c: int)
    ensures r.Ok? ==> c == r.value
    ensures r.Error? ==> c == r.code
  {
    match r
    case Ok(v) => v
    case Error(c) => c
  }

  /** Raise when the test says the call failed, otherwise pass the value back. */
  function Check(test: Sentinel, ret: int): (r: Result<int>)
    ensures r.Error? <==> Fails(test, ret)
    ensures Code(r) == ret
  {
    if Fails(test, ret) then Error(ret) else Ok(ret)
  }

  /** hx_nn_bind: the connection id nn_bind returned, never a negative value. */
  function Bind(ret: int): (r: Result<int>)
    ensures r.Error? <==> ret < 0
    ensures r.Ok? ==> r.value >= 0
    ensures Code(r) == ret
  {
    Check(Negative, ret)
  }

  /** hx_nn_connect: like bind, the endpoint id or an error. */
  function Connect(ret: int): (r: Result<int>)
    ensures r.Error? <==> ret < 0
    ensures r.Ok? ==> r.value >= 0
    ensures Code(r) == ret
  {
    Check(Negative, ret)
  }

  /** hx_nn_socket: the new socket handle; a failed nn_socket never yields a handle. */
  function Socket(ret: int): (r: Result<int>)
    ensures r.Error? <==> ret < 0
    ensures r.Ok? ==> r.value >= 0
    ensures Code(r) == ret
  {
    Check(Negative, ret)
  }

  /** hx_nn_close: 0 on success, any other value raises. */
  function Close(ret: int): (r: Result<int>)
    ensures r.Error? <==> ret != 0
    ensures r.Ok? ==> r.value == 0
    ensures Code(r) == ret
  {
    Check(NonZero, ret)
  }

  /** hx_nn_shutdown: 0 on success, any other value raises. */
  function Shutdown(ret: int): (r: Result<int>)
    ensures r.Error? <==> ret != 0
    ensures r.Ok? ==> r.value == 0
    ensures Code(r) == ret
  {
    Check(NonZero, ret)
  }

  /** hx_nn_device: only the sentinel -1 raises; any other value is passed back. */
  function Device(ret: int): (r: Result<int>)
    ensures r.Error? <==> ret == -1
    ensures r.Ok? ==> r.value != -1
    ensures Code(r) == ret
  {
    Check(MinusOne, ret)
  }

  /** The bytes nn_send is given: the first `length` bytes of the caller's buffer. */
  function SendPayload(data: seq<Byte>, length: nat): (p: seq<Byte>)
    requires length <= |data|
    ensures |p| == length
    ensures p <= data
  {
    data[..length]
  }

  /** hx_nn_send: the number of bytes nn_send reports as sent, or an error. */
  function Send(ret: int): (r: Result<int>)
    ensures r.Error? <==> ret < 0
    ensures r.Ok? ==> r.value >= 0
    ensures Code(r) == ret
  {
    Check(Negative, ret)
  }

  /** hx_nn_getsockopt: the option value nn_getsockopt wrote, or the error code. */
  function GetSockOpt(ret: int, optval: int): (r: Result<int>)
    ensures r.Error? <==> ret < 0
    ensures r.Error? ==> r.code == ret
    ensures r.Ok? ==> r.value == optval
  {
    if ret < 0 then Error(ret) else Ok(optval)
  }

  /** A C `int` as the Haxe runtime hands it over. */
  newtype int32 = x: int | -0x8000_0000 <= x < 0x8000_0000

  /** `sizeof(int)` on the platforms the binding targets. */
  const SizeOfInt: nat := 4

  /** The option value hx_nn_setsockopt accepts: a Haxe Int or a Haxe String. */
  datatype OptValue = IntValue(i: int32) | StringValue(bytes: seq<Byte>)

  /** The memory nn_setsockopt reads and the size it is told. */
  datatype OptArgs = OptArgs(payload: seq<Byte>, size: nat)

  /** The in-memory (little-endian, two's complement) bytes of a C int. */
  function Int32Bytes(i: int32): (b: seq<Byte>)
    ensures |b| == SizeOfInt
  {
    var u := if i < 0 then i as int + 0x1_0000_0000 else i as int;
    [(u % 0x100) as Byte, (u / 0x100 % 0x100) as Byte,
     (u / 0x1_0000 % 0x100) as Byte, (u / 0x100_0000 % 0x100) as Byte]
  }

  /** How nanomsg reads a C int back from four bytes. */
  function ReadInt32(b: seq<Byte>): (i: int)
    requires |b| == SizeOfInt
    ensures -0x8000_0000 <= i < 0x8000_0000
  {
    var u := b[0] as int + 0x100 * b[1] as int + 0x1_0000 * b[2] as int + 0x100_0000 * b[3] as int;
    if u < 0x8000_0000 then u else u - 0x1_0000_0000
  }

  /** The arguments hx_nn_setsockopt passes to nn_setsockopt: the size is derived
      from the value itself, `sizeof(int)` for an Int and the string's length for
      a String, so nanomsg reads exactly the value and nothing beyond it. */
  function SetOptArgs(v: OptValue): (a: OptArgs)
    ensures a.size == |a.payload|
    ensures v.IntValue? ==> a.size == SizeOfInt && ReadInt32(a.payload) == v.i as int
    ensures v.StringValue? ==> a.payload == v.bytes && a.size == |v.bytes|
  {
    match v
    case IntValue(i) =>
      Int32RoundTrip(i);
      OptArgs(Int32Bytes(i), SizeOfInt)
    case StringValue(s) => OptArgs(s, |s|)
  }

  lemma Int32RoundTrip(i: int32)
    ensures ReadInt32(Int32Bytes(i)) == i as int
  {
    var u := if i < 0 then i as int + 0x1_0000_0000 else i as int;
    var d1, d2, d3 := u / 0x100, u / 0x1_0000, u / 0x100_0000;
    assert u == u % 0x100 + 0x100 * d1;
    assert d1 == d1 % 0x100 + 0x100 * d2;
    assert d2 == d2 % 0x100 + 0x100 * d3;
    assert d3 < 0x100;
  }

  /** hx_nn_setsockopt: 0 on success, any other value raises. */
  function SetSockOpt(ret: int): (r: Result<int>)
    ensures r.Error? <==> ret != 0
    ensures r.Ok? ==> r.value == 0
    ensures Code(r) == ret
  {
    Check(NonZero, ret)
  }
}
