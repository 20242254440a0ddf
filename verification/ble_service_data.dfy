/** `BleServiceData` (cpp/src/ble/ble_service_data.cpp): a service uuid and its payload bytes. */
module BleServiceData {
  import opened Results
  import opened Strings
  import opened Numbers
  import BleData

  datatype ServiceData = ServiceData(uuid: int, data: seq<int>)

  /** The message of the MalformedException thrown for a non-hex service uuid. */
  const BadUuid := "Invalid service uuid, should be an int"

  /**
   * `from_packet`: no `:` and a service uuid with no leading hex digit throw
   * MalformedException; the id's `std::out_of_range` and every exception of
   * the payload loop, which reads the bytes after the `:`, escape unchanged.
   */
  function FromPacket(raw: string): (r: Result<ServiceData, CppError>)
    ensures r.Err? ==> !r.error.CrcError?
    ensures ':' !in raw ==> r == Err(Malformed("Invalid packet definition"))
    ensures var pos := FirstIndex(raw, ':');
            pos < |raw| && Stoi(raw[..pos], 16) == Err(InvalidArgument) ==> r == Err(Malformed(BadUuid))
    ensures var pos := FirstIndex(raw, ':');
            pos < |raw| && Stoi(raw[..pos], 16).Ok? && BleData.ReadChunks(ByteView(raw[pos + 1..])).Err? ==>
              r == Err(BleData.ReadChunks(ByteView(raw[pos + 1..])).error)
    ensures r.Ok? ==> var pos := FirstIndex(raw, ':');
            pos < |raw| && Stoi(raw[..pos], 16) == Ok(r.value.uuid) &&
            BleData.ReadChunks(ByteView(raw[pos + 1..])) == Ok(r.value.data) && 2 * |r.value.data| == |Utf8(raw[pos + 1..])|
  {
    var item :- BleData.ReadItem(raw, BadUuid);
    Ok(ServiceData(item.0, item.1))
  }

  /** `to_packet`: `%04X:` then two uppercase hex digits per byte. */
  function ToPacket(m: ServiceData): (r: string)
    ensures ',' !in r && ';' !in r && ':' in r
    ensures r == CppHex(m.uuid, 4) + ":" + BleData.WriteChunks(m.data)
  {
    BleData.WriteItem(m.uuid, m.data)
  }

  /** A service uuid in `0..2^31` and bytes in `0..255` are read back as written. */
  lemma RoundTrip(m: ServiceData)
    requires 0 <= m.uuid < TwoTo31 && forall b <- m.data :: 0 <= b < 0x100
    ensures FromPacket(ToPacket(m)) == Ok(m)
  {
    BleData.ReadWriteItem(m.uuid, m.data, BadUuid);
  }
}
