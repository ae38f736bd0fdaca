// The enumerations of the Alpaca protocol, and the tables that map words of a
// request to them.

module Protocol {
  import opened Wrappers
  import opened Text

  datatype EHttpStatusCode =
    | ContinueDecoding
    | NeedMoreInput
    | HttpOk
    | HttpBadRequest
    | HttpMethodNotAllowed
    | HttpLengthRequired
    | HttpPayloadTooLarge
    | HttpUnsupportedMediaType
    | HttpRequestHeaderFieldsTooLarge
    | HttpInternalServerError
    | HttpMethodNotImplemented
    | HttpVersionNotSupported
  {
    function Code(): nat {
      match this
      case ContinueDecoding => 0
      case NeedMoreInput => 1
      case HttpOk => 200
      case HttpBadRequest => 400
      case HttpMethodNotAllowed => 405
      case HttpLengthRequired => 411
      case HttpPayloadTooLarge => 413
      case HttpUnsupportedMediaType => 415
      case HttpRequestHeaderFieldsTooLarge => 431
      case HttpInternalServerError => 500
      case HttpMethodNotImplemented => 501
      case HttpVersionNotSupported => 505
    }

    // Decoding of the request is over, for better or worse.
    predicate IsFinal()
      ensures IsFinal() <==> Code() >= 200
    {
      !ContinueDecoding? && !NeedMoreInput?
    }
  }

  datatype RequestDecoderStatus = Reset | Decoding | Decoded

  datatype EHttpMethod = UnknownMethod | GET | PUT | HEAD

  datatype EApiGroup = UnknownGroup | DeviceGroup | ManagementGroup | SetupGroup

  datatype EAlpacaApi =
    | UnknownApi | DeviceApi | DeviceSetup | ManagementApiVersions
    | ManagementDescription | ManagementConfiguredDevices | ServerSetup

  datatype EManagementMethod = ManagementDescriptionMethod | ManagementConfiguredDevicesMethod

  datatype EDeviceType =
    | UnknownDevice | Camera | CoverCalibrator | Dome | FilterWheel | Focuser
    | ObservingConditions | Rotator | SafetyMonitor | Switch | Telescope

  datatype EDeviceMethod =
    | UnknownDeviceMethod | SetupMethod
    | ConnectedMethod | DescriptionMethod | DriverInfo | DriverVersion | InterfaceVersion | NameMethod
    | SupportedActions
    | BrightnessMethod | CalibratorOff | CalibratorOn | CalibratorState | CloseCover | CoverState
    | HaltCover | MaxBrightness | OpenCover
    | AveragePeriodMethod | CloudCover | DewPoint | Humidity | Pressure | RainRate | Refresh
    | SensorDescription | SkyBrightness | SkyQuality | SkyTemperature | StarFullWidthHalfMax
    | Temperature | TimeSinceLastUpdate | WindDirection | WindGust | WindSpeed
    | IsSafe
    | CanWrite | GetSwitch | GetSwitchDescription | GetSwitchName | GetSwitchValue | MaxSwitch
    | MaxSwitchValue | MinSwitchValue | SetSwitch | SetSwitchName | SetSwitchValue | SwitchStep

  datatype EParameter =
    | UnknownParameter | ActionParam | BrightnessParam | ClientIdParam | ClientTransactionIdParam
    | CommandParam | ConnectedParam | IdParam | NameParam | ParametersParam | RawParam
    | SensorNameParam | StateParam | ValueParam | AveragePeriodParam

  datatype ESensorName =
    | UnknownSensor | CloudCoverSensor | DewPointSensor | HumiditySensor | PressureSensor
    | RainRateSensor | SkyBrightnessSensor | SkyQualitySensor | SkyTemperatureSensor
    | StarFullWidthHalfMaxSensor | TemperatureSensor | WindDirectionSensor | WindGustSensor
    | WindSpeedSensor

  datatype EHttpHeader = UnknownHeader | ConnectionHeader | ContentLengthHeader | ContentTypeHeader | DateHeader

  const END_OF_HEADER_LINE := "\r\n"
  const HTTP_VERSION_END_OF_LINE := "HTTP/1.1\r\n"
  const MIME_TYPE_WWW_FORM_URL_ENCODED := "application/x-www-form-urlencoded"

  // ------------------------------------------------------------- Match tables

  // The first entry of the table whose literal is exactly the text.
  function MatchExactly<T>(table: seq<(string, T)>, text: string): Option<T> {
    if table == [] then None
    else if table[0].0 == text then Some(table[0].1)
    else MatchExactly(table[1..], text)
  }

  // The first entry of the table whose literal is the text, whatever the case of letters.
  function MatchCaseInsensitively<T>(table: seq<(string, T)>, text: string): Option<T> {
    if table == [] then None
    else if CaseEqual(table[0].0, text) then Some(table[0].1)
    else MatchCaseInsensitively(table[1..], text)
  }

  lemma {:induction false} MatchIsEntry<T>(table: seq<(string, T)>, text: string)
    ensures var r := MatchExactly(table, text);
      r.Some? ==> exists i :: 0 <= i < |table| && table[i] == (text, r.value)
  {
    if table != [] && table[0].0 != text {
      MatchIsEntry(table[1..], text);
      var r := MatchExactly(table, text);
      if r.Some? {
        var i :| 0 <= i < |table[1..]| && table[1..][i] == (text, r.value);
        assert table[i + 1] == (text, r.value);
      }
    } else if table != [] {
      assert table[0] == (text, MatchExactly(table, text).value);
    }
  }

  // Every entry is found under its own text, unless an earlier one has the same.
  lemma {:induction false} MatchFindsExactly<T>(table: seq<(string, T)>, text: string, i: nat)
    requires i < |table| && table[i].0 == text && forall j :: 0 <= j < i ==> table[j].0 != text
    ensures MatchExactly(table, text) == Some(table[i].1)
  {
    if i > 0 {
      assert table[0].0 != text;
      MatchFindsExactly(table[1..], text, i - 1);
    }
  }

  lemma {:induction false} MatchIsCaselessEntry<T>(table: seq<(string, T)>, text: string)
    ensures var r := MatchCaseInsensitively(table, text);
      r.Some? ==> exists i :: 0 <= i < |table| && CaseEqual(table[i].0, text) && table[i].1 == r.value
  {
    if table != [] && !CaseEqual(table[0].0, text) {
      MatchIsCaselessEntry(table[1..], text);
      var r := MatchCaseInsensitively(table, text);
      if r.Some? {
        var i :| 0 <= i < |table[1..]| && CaseEqual(table[1..][i].0, text) && table[1..][i].1 == r.value;
        assert table[i + 1] == table[1..][i];
      }
    }
  }

  // An entry is found by the text of its literal, unless an earlier literal is the same word.
  lemma {:induction false} MatchFinds<T>(table: seq<(string, T)>, text: string, i: nat)
    requires i < |table| && CaseEqual(table[i].0, text)
    requires forall j :: 0 <= j < i ==> !CaseEqual(table[j].0, text)
    ensures MatchCaseInsensitively(table, text) == Some(table[i].1)
  {
    if i > 0 {
      assert !CaseEqual(table[0].0, text);
      MatchFinds(table[1..], text, i - 1);
    }
  }

  // A word and the same word in other case name the same thing.
  lemma {:induction false} MatchIgnoresCase<T>(table: seq<(string, T)>, a: string, b: string)
    requires CaseEqual(a, b)
    ensures MatchCaseInsensitively(table, a) == MatchCaseInsensitively(table, b)
  {
    if table != [] {
      MatchIgnoresCase(table[1..], a, b);
    }
  }

  function MatchHttpMethod(text: string): Option<EHttpMethod> {
    MatchExactly([("GET", GET), ("PUT", PUT), ("HEAD", HEAD)], text)
  }

  function MatchApiGroup(text: string): Option<EApiGroup> {
    MatchExactly([("api", DeviceGroup), ("management", ManagementGroup), ("setup", SetupGroup)], text)
  }

  function MatchManagementMethod(text: string): Option<EManagementMethod> {
    MatchExactly([
        ("description", ManagementDescriptionMethod), ("configureddevices", ManagementConfiguredDevicesMethod)], text)
  }

  function DeviceTypes(): seq<(string, EDeviceType)> {
    [
      ("camera", Camera), ("covercalibrator", CoverCalibrator), ("dome", Dome), ("filterwheel", FilterWheel),
      ("focuser", Focuser), ("observingconditions", ObservingConditions), ("rotator", Rotator),
      ("safetymonitor", SafetyMonitor), ("switch", Switch), ("telescope", Telescope)]
  }

  function MatchDeviceType(text: string): Option<EDeviceType> { MatchExactly(DeviceTypes(), text) }

  function CommonDeviceMethods(): seq<(string, EDeviceMethod)> {
    [
      ("connected", ConnectedMethod), ("description", DescriptionMethod), ("driverinfo", DriverInfo),
      ("driverversion", DriverVersion), ("interfaceversion", InterfaceVersion), ("name", NameMethod),
      ("supportedactions", SupportedActions)]
  }

  function MatchCommonDeviceMethod(text: string): Option<EDeviceMethod> { MatchExactly(CommonDeviceMethods(), text) }

  function CoverCalibratorMethods(): seq<(string, EDeviceMethod)> {
    [
      ("brightness", BrightnessMethod), ("calibratoroff", CalibratorOff), ("calibratoron", CalibratorOn),
      ("calibratorstate", CalibratorState), ("closecover", CloseCover), ("coverstate", CoverState),
      ("haltcover", HaltCover), ("maxbrightness", MaxBrightness), ("opencover", OpenCover)]
  }

  function MatchCoverCalibratorMethod(text: string): Option<EDeviceMethod> { MatchExactly(CoverCalibratorMethods(), text) }

  function ObservingConditionsMethods(): seq<(string, EDeviceMethod)> {
    [
      ("averageperiod", AveragePeriodMethod), ("cloudcover", CloudCover), ("dewpoint", DewPoint),
      ("humidity", Humidity), ("pressure", Pressure), ("rainrate", RainRate), ("refresh", Refresh),
      ("sensordescription", SensorDescription), ("skybrightness", SkyBrightness), ("skyquality", SkyQuality),
      ("skytemperature", SkyTemperature), ("starfullwidthhalfmax", StarFullWidthHalfMax),
      ("temperature", Temperature), ("timesincelastupdate", TimeSinceLastUpdate),
      ("winddirection", WindDirection), ("windgust", WindGust), ("windspeed", WindSpeed)]
  }

  function MatchObservingConditionsMethod(text: string): Option<EDeviceMethod> { MatchExactly(ObservingConditionsMethods(), text) }

  function SafetyMonitorMethods(): seq<(string, EDeviceMethod)> {
    [("issafe", IsSafe)]
  }

  function MatchSafetyMonitorMethod(text: string): Option<EDeviceMethod> { MatchExactly(SafetyMonitorMethods(), text) }

  function SwitchMethods(): seq<(string, EDeviceMethod)> {
    [
      ("canwrite", CanWrite), ("getswitch", GetSwitch), ("getswitchdescription", GetSwitchDescription),
      ("getswitchname", GetSwitchName), ("getswitchvalue", GetSwitchValue), ("maxswitch", MaxSwitch),
      ("maxswitchvalue", MaxSwitchValue), ("minswitchvalue", MinSwitchValue), ("setswitch", SetSwitch),
      ("setswitchname", SetSwitchName), ("setswitchvalue", SetSwitchValue), ("switchstep", SwitchStep)]
  }

  function MatchSwitchMethod(text: string): Option<EDeviceMethod> { MatchExactly(SwitchMethods(), text) }

  // The methods of one type of device are tried before those of every device.
  function MatchDeviceMethod(group: EApiGroup, deviceType: EDeviceType, text: string): Option<EDeviceMethod> {
    if group == DeviceGroup then
      var specific := match deviceType
        case CoverCalibrator => MatchCoverCalibratorMethod(text)
        case ObservingConditions => MatchObservingConditionsMethod(text)
        case SafetyMonitor => MatchSafetyMonitorMethod(text)
        case Switch => MatchSwitchMethod(text)
        case _ => None;
      if specific.Some? then specific else MatchCommonDeviceMethod(text)
    else if group == SetupGroup then
      MatchExactly([("setup", SetupMethod)], text)
    else
      None
  }

  // No device has a method that is found under the group of the setup pages.
  ghost predicate NoSetup(table: seq<(string, EDeviceMethod)>) {
    forall i :: 0 <= i < |table| ==> table[i].1 != SetupMethod
  }

  lemma NoSetupFound(table: seq<(string, EDeviceMethod)>, text: string)
    requires NoSetup(table)
    ensures MatchExactly(table, text) != Some(SetupMethod)
  {
    MatchIsEntry(table, text);
  }

  lemma NoDeviceMethodIsSetup()
    ensures NoSetup(CommonDeviceMethods()) && NoSetup(CoverCalibratorMethods()) && NoSetup(SafetyMonitorMethods())
    ensures NoSetup(ObservingConditionsMethods()) && NoSetup(SwitchMethods())
  {
  }

  lemma SetupIsSetup(group: EApiGroup, deviceType: EDeviceType, text: string)
    requires MatchDeviceMethod(group, deviceType, text).Some?
    ensures MatchDeviceMethod(group, deviceType, text) == Some(SetupMethod) <==> group == SetupGroup
  {
    if group == DeviceGroup {
      hide MatchExactly, CommonDeviceMethods, CoverCalibratorMethods, ObservingConditionsMethods,
           SafetyMonitorMethods, SwitchMethods, NoSetup;
      NoDeviceMethodIsSetup();
      NoSetupFound(CommonDeviceMethods(), text);
      NoSetupFound(CoverCalibratorMethods(), text);
      NoSetupFound(ObservingConditionsMethods(), text);
      NoSetupFound(SafetyMonitorMethods(), text);
      NoSetupFound(SwitchMethods(), text);
    } else {
      MatchIsEntry([("setup", SetupMethod)], text);
    }
  }

  function ParameterNames(): seq<(string, EParameter)> {
    [
      ("action", ActionParam), ("brightness", BrightnessParam), ("ClientID", ClientIdParam),
      ("ClientTransactionID", ClientTransactionIdParam), ("Command", CommandParam),
      ("Connected", ConnectedParam), ("Id", IdParam), ("Name", NameParam), ("Parameters", ParametersParam),
      ("Raw", RawParam), ("SensorName", SensorNameParam), ("State", StateParam), ("Value", ValueParam),
      ("AveragePeriod", AveragePeriodParam)]
  }

  function MatchParameter(text: string): Option<EParameter> { MatchCaseInsensitively(ParameterNames(), text) }

  function SensorNames(): seq<(string, ESensorName)> {
    [
      ("cloudcover", CloudCoverSensor), ("dewpoint", DewPointSensor), ("humidity", HumiditySensor),
      ("pressure", PressureSensor), ("rainrate", RainRateSensor), ("skybrightness", SkyBrightnessSensor),
      ("skyquality", SkyQualitySensor), ("skytemperature", SkyTemperatureSensor),
      ("starfullwidthhalfmax", StarFullWidthHalfMaxSensor), ("temperature", TemperatureSensor),
      ("winddirection", WindDirectionSensor), ("windgust", WindGustSensor), ("windspeed", WindSpeedSensor)]
  }

  function MatchSensorName(text: string): Option<ESensorName> { MatchCaseInsensitively(SensorNames(), text) }

  function HttpHeaders(): seq<(string, EHttpHeader)> {
    [
      ("Connection", ConnectionHeader), ("Content-Length", ContentLengthHeader),
      ("Content-Type", ContentTypeHeader), ("Date", DateHeader)]
  }

  function MatchHttpHeader(text: string): Option<EHttpHeader> { MatchCaseInsensitively(HttpHeaders(), text) }
}
