// AlpacaRequest: what has been decoded of the request in hand.

module AlpacaRequests {
  import opened Ints
  import opened Protocol

  const RESET_DEVICE_NUMBER: uint32 := 123456789
  const RESET_CLIENT_ID: uint32 := 987654321
  const RESET_CLIENT_TRANSACTION_ID: uint32 := 198765432
  const RESET_SERVER_TRANSACTION_ID: uint32 := 543212345

  // The fields of an AlpacaRequest.
  datatype RequestFields = RequestFields(
    httpMethod: EHttpMethod,
    apiGroup: EApiGroup,
    api: EAlpacaApi,
    deviceType: EDeviceType,
    deviceNumber: uint32,
    deviceMethod: EDeviceMethod,
    clientId: uint32,
    clientTransactionId: uint32,
    sensorName: ESensorName,
    connected: bool,
    brightness: int32,
    id: int32,
    state: bool,
    value: real,
    averagePeriod: real,
    serverTransactionId: uint32,
    haveClientId: bool,
    haveClientTransactionId: bool,
    haveServerTransactionId: bool,
    haveConnected: bool,
    haveBrightness: bool,
    haveId: bool,
    haveState: bool,
    haveValue: bool,
    haveAveragePeriod: bool,
    doClose: bool)
  {
    // The fields after AlpacaRequest::Reset, which keeps the values of some
    // parameters and, unlike the other flags, haveAveragePeriod.
    function AfterReset(): RequestFields {
      RequestFields(UnknownMethod, UnknownGroup, UnknownApi, UnknownDevice, RESET_DEVICE_NUMBER,
                    UnknownDeviceMethod, RESET_CLIENT_ID, RESET_CLIENT_TRANSACTION_ID, UnknownSensor,
                    connected, brightness, -1, state, value, averagePeriod,
                    RESET_SERVER_TRANSACTION_ID, false, false, false, false, false, false, false,
                    false, haveAveragePeriod, false)
    }
  }

  // The request being decoded. Its many fields are kept in one record, which the methods replace.
  class AlpacaRequest {
    var fields: RequestFields

    // The fields that Reset leaves alone start with whatever the storage held.
    constructor (storage: RequestFields)
      ensures fields == storage.AfterReset()
    {
      fields := storage;
      new;
      Reset();
    }

    method Reset()
      modifies this
      ensures fields == old(fields).AfterReset()
    {
      fields := fields.(httpMethod := UnknownMethod, sensorName := UnknownSensor);
      fields := fields.(haveClientId := false, haveClientTransactionId := false,
                        haveServerTransactionId := false, haveConnected := false,
                        haveBrightness := false, haveId := false, haveState := false,
                        haveValue := false, doClose := false);
      fields := fields.(apiGroup := UnknownGroup, api := UnknownApi, deviceType := UnknownDevice,
                        deviceNumber := RESET_DEVICE_NUMBER, deviceMethod := UnknownDeviceMethod);
      fields := fields.(serverTransactionId := RESET_SERVER_TRANSACTION_ID);
      fields := fields.(clientId := RESET_CLIENT_ID, clientTransactionId := RESET_CLIENT_TRANSACTION_ID,
                        id := -1);
    }

    method SetClientId(v: uint32)
      requires !fields.haveClientId
      modifies this
      ensures fields == old(fields).(clientId := v, haveClientId := true)
    {
      fields := fields.(clientId := v);
      fields := fields.(haveClientId := true);
    }

    method SetClientTransactionId(v: uint32)
      requires !fields.haveClientTransactionId
      modifies this
      ensures fields == old(fields).(clientTransactionId := v, haveClientTransactionId := true)
    {
      fields := fields.(clientTransactionId := v);
      fields := fields.(haveClientTransactionId := true);
    }

    method SetServerTransactionId(v: uint32)
      requires !fields.haveServerTransactionId
      modifies this
      ensures fields == old(fields).(serverTransactionId := v, haveServerTransactionId := true)
    {
      fields := fields.(serverTransactionId := v);
      fields := fields.(haveServerTransactionId := true);
    }

    method SetConnected(v: bool)
      requires !fields.haveConnected
      modifies this
      ensures fields == old(fields).(connected := v, haveConnected := true)
    {
      fields := fields.(connected := v);
      fields := fields.(haveConnected := true);
    }

    method SetBrightness(v: int32)
      requires !fields.haveBrightness
      modifies this
      ensures fields == old(fields).(brightness := v, haveBrightness := true)
    {
      fields := fields.(brightness := v);
      fields := fields.(haveBrightness := true);
    }

    method SetId(v: int32)
      requires !fields.haveId
      modifies this
      ensures fields == old(fields).(id := v, haveId := true)
    {
      fields := fields.(id := v);
      fields := fields.(haveId := true);
    }

    method SetState(v: bool)
      requires !fields.haveState
      modifies this
      ensures fields == old(fields).(state := v, haveState := true)
    {
      fields := fields.(state := v);
      fields := fields.(haveState := true);
    }

    method SetValue(v: real)
      requires !fields.haveValue
      modifies this
      ensures fields == old(fields).(value := v, haveValue := true)
    {
      fields := fields.(value := v);
      fields := fields.(haveValue := true);
    }

    method SetAveragePeriod(v: real)
      requires !fields.haveAveragePeriod
      modifies this
      ensures fields == old(fields).(averagePeriod := v, haveAveragePeriod := true)
    {
      fields := fields.(averagePeriod := v);
      fields := fields.(haveAveragePeriod := true);
    }
  }
}
