/** modbus_tcp.c as it runs: the header checks and the byte loop around the shared tables. */
module TcpDevice {
  import opened Bytes
  import opened SlaveTables
  import opened RtuSlave
  import Pdu
  import Tcp
  import SlaveDevice

  class TcpServer {
    const unit: byte
    const tables: SlaveDevice.DataTables

    constructor (unit: byte, tables: SlaveDevice.DataTables)
      ensures this.unit == unit && this.tables == tables
    {
      this.unit := unit;
      this.tables := tables;
    }

    /** `modbus_tcp_build_response`. */
    method BuildResponse(rx: seq<byte>, di: byte) returns (status: Status, tx: seq<byte>)
      requires tables.Valid()
      modifies tables.holding, tables.input, tables.coils, tables.discrete, tables.files, tables.drivers
      ensures tables.Valid()
      ensures Tcp.Exchange(tables.View(), status, tx) == Tcp.BuildResponse(old(tables.View()), unit, rx, di)
    {
      hide SlaveDevice.DataTables.View, SlaveDevice.DataTables.Valid, Pdu.Process;
      if |rx| < Tcp.MBAP + 1 || |rx| > Tcp.MBAP + Tcp.MAX_PDU {
        return ERROR, [];
      }
      var transaction, protocol, length := Be16(rx[0], rx[1]), Be16(rx[2], rx[3]), Be16(rx[4], rx[5]);
      if protocol != 0 || length < 2 || length > 1 + Tcp.MAX_PDU || |rx| != 6 + length {
        return ERROR, [];
      }
      if rx[6] != unit && rx[6] != 0 {
        return OK, [];
      }
      var reply := tables.Process(rx[Tcp.MBAP..], false, di);
      if !reply.Responded() {
        return OK, [];
      }
      if |reply.built| > Tcp.MAX_PDU {
        return ERROR, [];
      }
      var size: word := 1 + |reply.built|;
      tx := [Hi(transaction), Lo(transaction), 0, 0, Hi(size), Lo(size), rx[6]];
      ghost var header := tx;
      for i := 0 to |reply.built|
        invariant tx == header + reply.built[..i]
      {
        tx := tx + [reply.built[i]];
      }
      assert reply.built[..|reply.built|] == reply.built;
      status := OK;
    }
  }
}
