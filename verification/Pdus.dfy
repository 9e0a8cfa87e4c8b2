/** Protocol data units (emodbus/include/emodbus/base/modbus_pdu.h), error numbers
    (modbus_errno.h) and exception replies (emodbus/server/exception.c,
    emodbus/base/modbus_pdu.c). */
module Pdus {
  import opened Words

  datatype Option<+T> = None | Some(value: T)

  // A PDU as a value: its function and its data_size octets of data.
  datatype Pdu = Pdu(func: byte, data: seq<byte>)

  const MAX_PDU_SIZE := 256
  const MAX_PDU_DATA_SIZE := 253

  // errno.h
  const EBUSY := 16
  const EINVAL := 22
  const ENOMEM := 12

  // enum emodbus_errno_t
  const BAD_CRC := 1000
  const BUFFER_OVERFLOW := 1001
  const RESP_WRONG_ADDRESS := 1004
  const RESP_WRONG_FUNC := 1005
  const RESP_TIMEOUT := 1006
  const RESP_BUFFER_OVF := 1007
  const RESP_WRONG_TRANSACTION_ID := 1008

  // Exception codes
  const MBE_ILLEGAL_FUNCTION: byte := 0x01
  const MBE_ILLEGAL_DATA_ADDR: byte := 0x02
  const MBE_ILLEGAL_DATA_VALUE: byte := 0x03
  const MBE_SLAVE_FAILURE: byte := 0x04

  // The storage a request is read from: a PDU buffer of the server.
  predicate Storage(d: seq<byte>) { |d| >= MAX_PDU_DATA_SIZE }

  // What a transport tells the level above: recv_packet, error, or nothing.
  datatype Outcome = Silent | Delivered(addr: byte, pdu: Pdu) | Failed(errno: int)

  // A PDU with its storage (emb_pdu_t).
  class PduBuffer {
    var func: byte
    var size: byte
    var maxSize: byte
    const data: array<byte>

    ghost predicate Valid()
      reads this
    {
      size as int <= data.Length && maxSize as int <= data.Length
    }

    ghost function Value(): Pdu
      requires Valid()
      reads this, data
    {
      Pdu(func, data[..size])
    }

    constructor (capacity: byte)
      ensures Valid() && fresh(data)
      ensures maxSize == capacity && data.Length == capacity && size == 0
    {
      func, size, maxSize := 0, 0, capacity;
      data := new byte[capacity];
    }

    // Setting function and data_size and copying the data in.
    method Fill(f: byte, source: array<byte>, from: nat, count: byte)
      requires Valid() && count <= maxSize && source != data && from + count <= source.Length
      modifies this`func, this`size, data
      ensures Valid() && Value() == Pdu(f, source[from..from + count])
    {
      func, size := f, count;
      forall i | 0 <= i < count {
        data[i] := source[from + i];
      }
    }
  }

  // _func | 0x80
  function WithHighBit(func: byte): (r: byte)
    ensures r >= 0x80 && r % 0x80 == func % 0x80
  {
    if func >= 0x80 then func else func + 0x80
  }

  function ExceptionPdu(func: byte, errno: byte): Pdu { Pdu(WithHighBit(func), [errno]) }

  // emb_build_exception_pdu
  method BuildException(result: PduBuffer, func: byte, errno: byte) returns (r: int)
    requires result.Valid()
    modifies result, result.data
    ensures result.Valid() && result.maxSize == old(result.maxSize)
    ensures r == if result.maxSize < 1 then -ENOMEM else 0
    ensures r == 0 ==> result.Value() == ExceptionPdu(func, errno)
    ensures r != 0 ==> result.Value() == old(result.Value())
  {
    if result.maxSize < 1 {
      return -ENOMEM;
    }
    result.func := WithHighBit(func);
    result.size := 1;
    result.data[0] := errno;
    r := 0;
  }

  // emb_check_pdu_for_exception; `stale` is the first octet of the storage of a PDU without data.
  function CheckException(pdu: Pdu, stale: byte): int {
    if pdu.func >= 0x80 then -((if pdu.data == [] then stale else pdu.data[0]) + 1500) else 0
  }

  // The check inverts the builder, and nothing else is taken for an exception.
  lemma ExceptionRoundTrip(func: byte, errno: byte, pdu: Pdu, stale: byte)
    ensures CheckException(ExceptionPdu(func, errno), stale) == -(1500 + errno)
    ensures CheckException(pdu, stale) == 0 <==> pdu.func < 0x80
    ensures pdu.func >= 0x80 && |pdu.data| == 1 ==>
              pdu == ExceptionPdu(pdu.func - 0x80, pdu.data[0])
  {
    if pdu.func >= 0x80 && |pdu.data| == 1 {
      assert pdu.data == [pdu.data[0]];
    }
  }
}
