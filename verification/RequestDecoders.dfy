// RequestDecoderState: the resumable decoder, updated in place by the decode
// functions. Each method is proved to do what module DecoderSpec defines.

module RequestDecoders {
  import opened Ints
  import opened Text
  import opened StringViews
  import opened Protocol
  import opened AlpacaRequests
  import opened DecoderSpec

  class RequestDecoderState {
    var decoderStatus: RequestDecoderStatus
    // The function to use when next decoding.
    var decodeFunction: DecodeFunction
    // The parameter or the header whose value is being decoded. (The source
    // overlays the two; each is written before it is read.)
    var currentParameter: EParameter
    var currentHeader: EHttpHeader
    var remainingContentLength: uint16
    var isDecodingHeader: bool
    var isDecodingStartLine: bool
    var isFinalInput: bool
    var foundContentLength: bool
    const request: AlpacaRequest

    ghost function State(): DecoderState
      reads this, request
    {
      DecoderState(decodeFunction, currentParameter, currentHeader, remainingContentLength, isDecodingHeader,
                   isDecodingStartLine, isFinalInput, foundContentLength, decoderStatus, request.fields)
    }

    // The method returned status and left the decoder and the view, which
    // showed the text v starting at begin, as the outcome r says.
    ghost predicate Did(r: Outcome, status: EHttpStatusCode, view: StringView, v: string, begin: nat)
      reads this, request, view
    {
      && status == r.status && State() == r.state
      && r.used <= |v| && view.text == v[r.used..] && view.begin == begin + r.used
    }

    constructor (request: AlpacaRequest, storage: DecoderState)
      ensures this.request == request && decodeFunction == NoFunction
    {
      this.request := request;
      decodeFunction := NoFunction;
      decoderStatus := storage.decoderStatus;
      currentParameter, currentHeader := storage.currentParameter, storage.currentHeader;
      remainingContentLength := storage.remaining;
      isDecodingHeader, isDecodingStartLine := storage.isDecodingHeader, storage.isDecodingStartLine;
      isFinalInput, foundContentLength := storage.isFinalInput, storage.foundContentLength;
    }

    // Prepares for decoding a new request.
    method Reset()
      modifies this, request
      ensures State() == ResetState(old(State()))
    {
      decodeFunction := DecodeFunction.DecodeHttpMethod;
      request.Reset();
      isDecodingHeader := true;
      isDecodingStartLine := true;
      isFinalInput := false;
      foundContentLength := false;
      decoderStatus := RequestDecoderStatus.Reset;
    }

    method SetDecodeFunction(func: DecodeFunction) returns (status: EHttpStatusCode)
      requires decodeFunction != NoFunction && decodeFunction != func
      modifies this`decodeFunction
      ensures decodeFunction == func && status == ContinueDecoding
    {
      decodeFunction := func;
      return ContinueDecoding;
    }

    method SetDecodeFunctionAfterListenerCall(func: DecodeFunction, status: EHttpStatusCode)
      returns (out: EHttpStatusCode)
      requires !status.NeedMoreInput?
      requires status.ContinueDecoding? ==> decodeFunction != NoFunction && decodeFunction != func
      modifies this`decodeFunction
      ensures out == status
      ensures decodeFunction == if status.ContinueDecoding? then func else old(decodeFunction)
    {
      if status == ContinueDecoding {
        out := SetDecodeFunction(func);
      } else if status.Code() < 200 {
        return HttpInternalServerError;
      } else {
        return status;
      }
    }

    // -------------------------------------------------------- Extracting names

    // ExtractMatchingPrefix: nothing unless a character that does not match is in view.
    static method ExtractMatchingPrefix(view: StringView, cc: CharClass)
      returns (found: bool, prefix: StringView)
      requires view.Valid()
      modifies view
      ensures view.Valid() && prefix.Valid() && (prefix == view || fresh(prefix))
      ensures found <==> Span(old(view.text), cc) < |old(view.text)|
      ensures found ==> fresh(prefix)
      ensures found ==>
        var n := Span(old(view.text), cc);
        prefix.text == old(view.text)[..n] && view.text == old(view.text)[n..] && view.begin == old(view.begin) + n
      ensures !found ==> view.text == old(view.text) && view.begin == old(view.begin)
    {
      var beyond := view.FindFirstNotOf(cc);
      if beyond == MAX_SIZE {
        return false, view;
      }
      prefix := new StringView(view.text[..beyond], view.begin);
      view.RemovePrefix(beyond);
      return true, prefix;
    }

    // The first half of ExtractAndProcessName: the name, and the status to
    // return when there is not one to process.
    method ExtractTerminatedName(view: StringView, terminators: string, consume: bool)
      returns (status: EHttpStatusCode, matched: StringView)
      requires view.Valid() && terminators != "" && (consume <==> |terminators| == 1)
      modifies view
      ensures view.Valid() && matched.Valid()
      ensures
        var v, begin := old(view.text), old(view.begin);
        var n := Span(v, NameChars);
        if n == |v| then status == NeedMoreInput && view.text == v && view.begin == begin
        else if v[n] !in terminators then
          status == HttpBadRequest && view.text == v[n..] && view.begin == begin + n
        else
          && status == ContinueDecoding && matched != view && fresh(matched) && matched.text == v[..n]
          && var used := if consume then n + 1 else n;
          view.text == v[used..] && view.begin == begin + used
    {
      var found;
      found, matched := ExtractMatchingPrefix(view, NameChars);
      if !found {
        return NeedMoreInput, matched;
      }
      ghost var n := Span(old(view.text), NameChars);
      assert view.text[0] == old(view.text)[n];
      if view.text[0] !in terminators {
        return HttpBadRequest, matched;
      } else if consume {
        view.RemovePrefix(1);
        assert old(view.text)[n..][1..] == old(view.text)[n + 1..];
      }
      return ContinueDecoding, matched;
    }

    // ------------------------------------------------------------ Request line

    method ProcessHttpMethod(matched: StringView) returns (status: EHttpStatusCode)
      requires decodeFunction == DecodeFunction.DecodeHttpMethod
      modifies this, request
      ensures var r := DecoderSpec.ProcessHttpMethod(old(State()), old(matched.text), 0);
        status == r.status && State() == r.state
    {
      var m := MatchHttpMethod(matched.text);
      if m.Some? {
        request.fields := request.fields.(httpMethod := m.value);
        status := SetDecodeFunction(DecodeFunction.MatchStartOfPath);
      } else {
        return HttpMethodNotImplemented;
      }
    }

    method DecodeHttpMethod(view: StringView) returns (status: EHttpStatusCode)
      requires view.Valid() && decodeFunction == DecodeFunction.DecodeHttpMethod
      modifies this, request, view
      ensures view.Valid()
      ensures Did(StepName(old(State()), old(view.text)), status, view, old(view.text), old(view.begin))
    {
      var matched;
      status, matched := ExtractTerminatedName(view, " ", true);
      if status == ContinueDecoding {
        status := ProcessHttpMethod(matched);
      }
    }

    method MatchStartOfPath(view: StringView) returns (status: EHttpStatusCode)
      requires view.Valid() && decodeFunction == DecodeFunction.MatchStartOfPath
      modifies this, view
      ensures view.Valid()
      ensures Did(StepMatchStartOfPath(old(State()), old(view.text)), status, view, old(view.text), old(view.begin))
    {
      if view.text == "" {
        return NeedMoreInput;
      }
      var matched := view.MatchAndConsume("/");
      assert matched <==> old(view.text)[0] == '/';
      if matched {
        status := SetDecodeFunction(DecodeFunction.DecodeApiGroup);
      } else {
        return HttpBadRequest;
      }
    }

    method ProcessApiGroup(matched: StringView, view: StringView, ghost v: string, ghost begin: nat)
      returns (status: EHttpStatusCode)
      requires view.Valid() && matched != view && decodeFunction == DecodeFunction.DecodeApiGroup
      requires |matched.text| < |v| && view.text == v[|matched.text|..] && view.begin == begin + |matched.text|
      modifies this, request, view
      ensures view.Valid()
      ensures
        var text := old(matched.text);
        Did(DecoderSpec.ProcessApiGroup(old(State()), text, v[|text|], |text|), status, view, v, begin)
    {
      hide MatchApiGroup, ContinueGroup, EndGroup;
      var group := MatchApiGroup(matched.text);
      if group.None? {
        return HttpBadRequest;
      }
      MatchedGroupIsKnown(matched.text);
      request.fields := request.fields.(apiGroup := group.value);
      assert view.text[0] == v[|matched.text|] && view.text[1..] == v[|matched.text| + 1..];
      var continues := view.MatchAndConsume("/");
      ghost var used := if continues then |matched.text| + 1 else |matched.text|;
      assert view.text == v[used..];
      if continues {
        status := ContinuePath(group.value, used);
      } else {
        status := EndPath(group.value, used);
      }
    }

    // The path goes on after the group.
    method ContinuePath(group: EApiGroup, ghost used: nat) returns (status: EHttpStatusCode)
      requires decodeFunction == DecodeFunction.DecodeApiGroup && request.fields.apiGroup == group
      requires group != UnknownGroup
      modifies this`decodeFunction, request
      ensures var r := ContinueGroup(old(State()), group, used);
        status == r.status && State() == r.state && r.used == used
    {
      if !MethodIsRead(request.fields.httpMethod) && group != DeviceGroup {
        return HttpMethodNotAllowed;
      }
      if group == ManagementGroup {
        status := SetDecodeFunction(DecodeFunction.DecodeManagementType);
        return;
      } else if group == SetupGroup {
        request.fields := request.fields.(api := DeviceSetup);
      } else {
        assert group == DeviceGroup;
        request.fields := request.fields.(api := DeviceApi);
      }
      status := SetDecodeFunction(DecodeFunction.DecodeApiVersion);
    }

    // The path ends with the group.
    method EndPath(group: EApiGroup, ghost used: nat) returns (status: EHttpStatusCode)
      requires decodeFunction == DecodeFunction.DecodeApiGroup
      modifies this`decodeFunction, request
      ensures var r := EndGroup(old(State()), group, used);
        status == r.status && State() == r.state && r.used == used
    {
      if group != SetupGroup {
        return HttpBadRequest;
      }
      request.fields := request.fields.(api := ServerSetup);
      if !MethodIsRead(request.fields.httpMethod) {
        return HttpMethodNotAllowed;
      }
      status := SetDecodeFunction(DecodeFunction.DecodeEndOfPath);
    }

    method DecodeApiGroup(view: StringView) returns (status: EHttpStatusCode)
      requires view.Valid() && decodeFunction == DecodeFunction.DecodeApiGroup
      modifies this, request, view
      ensures view.Valid()
      ensures Did(StepName(old(State()), old(view.text)), status, view, old(view.text), old(view.begin))
    {
      var found, matched := ExtractMatchingPrefix(view, NameChars);
      if !found {
        return NeedMoreInput;
      }
      status := ProcessApiGroup(matched, view, old(view.text), old(view.begin));
    }

    method ProcessApiVersion(matched: StringView) returns (status: EHttpStatusCode)
      requires matched.Valid() && decodeFunction == DecodeFunction.DecodeApiVersion
      modifies this, request
      ensures var r := DecoderSpec.ProcessApiVersion(old(State()), old(matched.text), 0);
        status == r.status && State() == r.state
    {
      var isV1 := matched.Equals("v1");
      if isV1 {
        status := SetDecodeFunction(DecodeFunction.DecodeDeviceType);
      } else {
        return HttpBadRequest;
      }
    }

    method DecodeApiVersion(view: StringView) returns (status: EHttpStatusCode)
      requires view.Valid() && decodeFunction == DecodeFunction.DecodeApiVersion
      modifies this, request, view
      ensures view.Valid()
      ensures Did(StepName(old(State()), old(view.text)), status, view, old(view.text), old(view.begin))
    {
      var matched;
      status, matched := ExtractTerminatedName(view, "/", true);
      if status == ContinueDecoding {
        status := ProcessApiVersion(matched);
      }
    }

    method ProcessDeviceType(matched: StringView) returns (status: EHttpStatusCode)
      requires matched.Valid() && decodeFunction == DecodeFunction.DecodeDeviceType
      modifies this, request
      ensures var r := DecoderSpec.ProcessDeviceType(old(State()), old(matched.text), 0);
        status == r.status && State() == r.state
    {
      var deviceType := MatchDeviceType(matched.text);
      if deviceType.Some? {
        request.fields := request.fields.(deviceType := deviceType.value);
        status := SetDecodeFunction(DecodeFunction.DecodeDeviceNumber);
      } else {
        return HttpBadRequest;
      }
    }

    method DecodeDeviceType(view: StringView) returns (status: EHttpStatusCode)
      requires view.Valid() && decodeFunction == DecodeFunction.DecodeDeviceType
      modifies this, request, view
      ensures view.Valid()
      ensures Did(StepName(old(State()), old(view.text)), status, view, old(view.text), old(view.begin))
    {
      var matched;
      status, matched := ExtractTerminatedName(view, "/", true);
      if status == ContinueDecoding {
        status := ProcessDeviceType(matched);
      }
    }

    method ProcessDeviceNumber(matched: StringView) returns (status: EHttpStatusCode)
      requires matched.Valid() && decodeFunction == DecodeFunction.DecodeDeviceNumber
      modifies this, request
      ensures var r := DecoderSpec.ProcessDeviceNumber(old(State()), old(matched.text), 0);
        status == r.status && State() == r.state
    {
      var converted, number := matched.ToUint32();
      if !converted {
        return HttpBadRequest;
      }
      request.fields := request.fields.(deviceNumber := number);
      status := SetDecodeFunction(DecodeFunction.DecodeDeviceMethod);
    }

    method DecodeDeviceNumber(view: StringView) returns (status: EHttpStatusCode)
      requires view.Valid() && decodeFunction == DecodeFunction.DecodeDeviceNumber
      modifies this, request, view
      ensures view.Valid()
      ensures Did(StepName(old(State()), old(view.text)), status, view, old(view.text), old(view.begin))
    {
      var matched;
      status, matched := ExtractTerminatedName(view, "/", true);
      if status == ContinueDecoding {
        status := ProcessDeviceNumber(matched);
      }
    }

    method ProcessDeviceMethod(matched: StringView) returns (status: EHttpStatusCode)
      requires matched.Valid() && decodeFunction == DecodeFunction.DecodeDeviceMethod
      requires IsDevicePath(request.fields)
      modifies this, request
      ensures var r := DecoderSpec.ProcessDeviceMethod(old(State()), old(matched.text), 0);
        status == r.status && State() == r.state
    {
      hide MatchDeviceMethod;
      var m := MatchDeviceMethod(request.fields.apiGroup, request.fields.deviceType, matched.text);
      if m.Some? {
        SetupIsSetup(request.fields.apiGroup, request.fields.deviceType, matched.text);
        assert m.value == SetupMethod || request.fields.api == DeviceApi;
        assert m.value != SetupMethod || request.fields.api == DeviceSetup;
        request.fields := request.fields.(deviceMethod := m.value);
        status := SetDecodeFunction(DecodeFunction.DecodeEndOfPath);
      } else {
        return HttpBadRequest;
      }
    }

    method DecodeDeviceMethod(view: StringView) returns (status: EHttpStatusCode)
      requires view.Valid() && decodeFunction == DecodeFunction.DecodeDeviceMethod
      requires IsDevicePath(request.fields)
      modifies this, request, view
      ensures view.Valid()
      ensures Did(StepName(old(State()), old(view.text)), status, view, old(view.text), old(view.begin))
    {
      var matched;
      status, matched := ExtractTerminatedName(view, "? ", false);
      if status == ContinueDecoding {
        status := ProcessDeviceMethod(matched);
      }
    }

    method ProcessManagementType(matched: StringView, view: StringView, ghost v: string, ghost begin: nat)
      returns (status: EHttpStatusCode)
      requires matched.Valid() && view.Valid() && matched != view
      requires decodeFunction == DecodeFunction.DecodeManagementType
      requires |matched.text| < |v| && view.text == v[|matched.text|..] && view.begin == begin + |matched.text|
      modifies this, request, view
      ensures view.Valid()
      ensures
        var text := old(matched.text);
        Did(DecoderSpec.ProcessManagementType(old(State()), text, v[|text|], |text|), status, view, v, begin)
    {
      assert view.text[0] == v[|matched.text|] && view.text[1..] == v[|matched.text| + 1..];
      var isV1 := matched.Equals("v1");
      if isV1 {
        var continues := view.MatchAndConsume("/");
        if continues {
          status := SetDecodeFunction(DecodeFunction.DecodeManagementMethod);
        } else {
          return HttpBadRequest;
        }
      } else {
        var isApiVersions := matched.Equals("apiversions");
        if isApiVersions {
          request.fields := request.fields.(api := ManagementApiVersions);
          status := SetDecodeFunction(DecodeFunction.DecodeEndOfPath);
        } else {
          return HttpBadRequest;
        }
      }
    }

    method DecodeManagementType(view: StringView) returns (status: EHttpStatusCode)
      requires view.Valid() && decodeFunction == DecodeFunction.DecodeManagementType
      modifies this, request, view
      ensures view.Valid()
      ensures Did(StepName(old(State()), old(view.text)), status, view, old(view.text), old(view.begin))
    {
      var found, matched := ExtractMatchingPrefix(view, NameChars);
      if !found {
        return NeedMoreInput;
      }
      status := ProcessManagementType(matched, view, old(view.text), old(view.begin));
    }

    method ProcessManagementMethod(matched: StringView) returns (status: EHttpStatusCode)
      requires matched.Valid() && decodeFunction == DecodeFunction.DecodeManagementMethod
      modifies this, request
      ensures var r := DecoderSpec.ProcessManagementMethod(old(State()), old(matched.text), 0);
        status == r.status && State() == r.state
    {
      var m := MatchManagementMethod(matched.text);
      if m.Some? {
        if m.value == ManagementDescriptionMethod {
          request.fields := request.fields.(api := ManagementDescription);
        } else {
          assert m.value == ManagementConfiguredDevicesMethod;
          request.fields := request.fields.(api := ManagementConfiguredDevices);
        }
        status := SetDecodeFunction(DecodeFunction.DecodeEndOfPath);
      } else {
        return HttpBadRequest;
      }
    }

    method DecodeManagementMethod(view: StringView) returns (status: EHttpStatusCode)
      requires view.Valid() && decodeFunction == DecodeFunction.DecodeManagementMethod
      modifies this, request, view
      ensures view.Valid()
      ensures Did(StepName(old(State()), old(view.text)), status, view, old(view.text), old(view.begin))
    {
      var found, matched := ExtractMatchingPrefix(view, NameChars);
      if !found {
        return NeedMoreInput;
      }
      status := ProcessManagementMethod(matched);
    }

    // The character that ended the path's last word must still be in view.
    method DecodeEndOfPath(view: StringView) returns (status: EHttpStatusCode)
      requires view.Valid() && decodeFunction == DecodeFunction.DecodeEndOfPath && view.text != ""
      modifies this, view
      ensures view.Valid()
      ensures Did(StepDecodeEndOfPath(old(State()), old(view.text)), status, view, old(view.text), old(view.begin))
    {
      var next;
      var hasQuery := view.MatchAndConsume("?");
      assert hasQuery <==> old(view.text)[0] == '?';
      if hasQuery {
        next := DecodeFunction.DecodeParamName;
      } else {
        var ends := view.MatchAndConsume(" ");
        assert ends <==> old(view.text)[0] == ' ';
        if ends {
          next := DecodeFunction.MatchHttpVersion;
        } else {
          return HttpBadRequest;
        }
      }
      status := SetDecodeFunction(next);
    }

    method MatchHttpVersion(view: StringView) returns (status: EHttpStatusCode)
      requires view.Valid() && decodeFunction == DecodeFunction.MatchHttpVersion
      modifies this, view
      ensures view.Valid()
      ensures Did(StepMatchHttpVersion(old(State()), old(view.text)), status, view, old(view.text), old(view.begin))
    {
      var expected := HTTP_VERSION_END_OF_LINE;
      var matched := view.StartsWith(expected);
      if matched {
        view.RemovePrefix(|expected|);
        isDecodingStartLine := false;
        status := SetDecodeFunction(DecodeFunction.DecodeHeaderLines);
      } else if |view.text| < |expected| {
        return NeedMoreInput;
      } else {
        return HttpVersionNotSupported;
      }
    }

    // -------------------------------------------------------------- Parameters

    method DecodeParamSeparator(view: StringView) returns (status: EHttpStatusCode)
      requires view.Valid() && decodeFunction == DecodeFunction.DecodeParamSeparator
      modifies this, view
      ensures view.Valid()
      ensures
        Did(StepDecodeParamSeparator(old(State()), old(view.text)), status, view, old(view.text), old(view.begin))
    {
      var beyond := view.FindFirstNotOf(ParamSeparators);
      if beyond == MAX_SIZE {
        if !isDecodingHeader && isFinalInput {
          view.RemovePrefix(|view.text|);
          return HttpOk;
        }
        if |view.text| > 1 {
          view.RemovePrefix(|view.text| - 1);
        }
        return NeedMoreInput;
      }
      view.RemovePrefix(beyond);
      assert view.text[0] == old(view.text)[beyond];
      if view.text[0] == ' ' {
        if isDecodingHeader {
          view.RemovePrefix(1);
          assert old(view.text)[beyond..][1..] == old(view.text)[beyond + 1..];
          status := SetDecodeFunction(DecodeFunction.MatchHttpVersion);
          return;
        }
        return HttpBadRequest;
      } else {
        status := SetDecodeFunction(DecodeFunction.DecodeParamName);
      }
    }

    method ProcessParamName(matched: StringView) returns (status: EHttpStatusCode)
      requires matched.Valid() && decodeFunction == DecodeFunction.DecodeParamName
      modifies this, request
      ensures var r := DecoderSpec.ProcessParamName(old(State()), old(matched.text), 0);
        status == r.status && State() == r.state
    {
      currentParameter := UnknownParameter;
      var parameter := MatchParameter(matched.text);
      if parameter.Some? {
        currentParameter := parameter.value;
        status := SetDecodeFunction(DecodeFunction.DecodeParamValue);
        return;
      }
      status := SetDecodeFunctionAfterListenerCall(DecodeFunction.DecodeParamValue, ContinueDecoding);
    }

    method DecodeParamName(view: StringView) returns (status: EHttpStatusCode)
      requires view.Valid() && decodeFunction == DecodeFunction.DecodeParamName
      modifies this, request, view
      ensures view.Valid()
      ensures Did(StepName(old(State()), old(view.text)), status, view, old(view.text), old(view.begin))
    {
      var matched;
      status, matched := ExtractTerminatedName(view, "=", true);
      if status == ContinueDecoding {
        status := ProcessParamName(matched);
      }
    }

    // Stores the value of the current parameter, if it is the first one and well formed.
    method StoreValue(value: StringView) returns (status: EHttpStatusCode)
      requires value.Valid()
      modifies request
      ensures
        var stored := StoreParameter(old(request.fields), currentParameter, old(value.text));
        if stored.Some? then status == ContinueDecoding && request.fields == stored.value
        else status == HttpBadRequest && request.fields == old(request.fields)
    {
      hide Text.ToUint32, Text.ToInt32, Text.ToReal, MatchSensorName, CaseEqual, AsInt32;
      status := ContinueDecoding;
      match currentParameter
      case ClientIdParam =>
        var converted, id := value.ToUint32();
        if request.fields.haveClientId || !converted {
          status := HttpBadRequest;
        } else {
          request.SetClientId(id);
        }
      case ClientTransactionIdParam =>
        var converted, id := value.ToUint32();
        if request.fields.haveClientTransactionId || !converted {
          status := HttpBadRequest;
        } else {
          request.SetClientTransactionId(id);
        }
      case IdParam =>
        var converted, id := value.ToUint32();
        if request.fields.haveId || !converted {
          status := HttpBadRequest;
        } else {
          request.SetId(AsInt32(id));
        }
      case BrightnessParam =>
        var converted, brightness := value.ToInt32();
        if request.fields.haveBrightness || !converted {
          status := HttpBadRequest;
        } else {
          request.SetBrightness(brightness);
        }
      case ValueParam =>
        var converted, d := value.ToReal();
        if request.fields.haveValue || !converted {
          status := HttpBadRequest;
        } else {
          request.SetValue(d);
        }
      case AveragePeriodParam =>
        var converted, d := value.ToReal();
        if request.fields.haveAveragePeriod || !converted {
          status := HttpBadRequest;
        } else {
          request.SetAveragePeriod(d);
        }
      case ConnectedParam =>
        if CaseEqual(value.text, "False") && !request.fields.haveConnected {
          request.SetConnected(false);
        } else if CaseEqual(value.text, "True") && !request.fields.haveConnected {
          request.SetConnected(true);
        } else {
          status := HttpBadRequest;
        }
      case StateParam =>
        if CaseEqual(value.text, "False") && !request.fields.haveState {
          request.SetState(false);
        } else if CaseEqual(value.text, "True") && !request.fields.haveState {
          request.SetState(true);
        } else {
          status := HttpBadRequest;
        }
      case SensorNameParam =>
        var sensor := MatchSensorName(value.text);
        if request.fields.sensorName != UnknownSensor || sensor.None? {
          status := HttpBadRequest;
        } else {
          request.fields := request.fields.(sensorName := sensor.value);
        }
      case _ =>
    }

    method DecodeParamValue(view: StringView) returns (status: EHttpStatusCode)
      requires view.Valid() && decodeFunction == DecodeFunction.DecodeParamValue
      requires isFinalInput ==> remainingContentLength == |view.text|
      modifies this, request, view
      ensures view.Valid()
      ensures Did(StepDecodeParamValue(old(State()), old(view.text)), status, view, old(view.text), old(view.begin))
    {
      hide Span, StoreParameter;
      var found, value := ExtractMatchingPrefix(view, ParamValueChars);
      if !found {
        if isDecodingHeader || !isFinalInput {
          return NeedMoreInput;
        }
        // The end of the body ends the value.
        assert remainingContentLength == |view.text|;
        value := new StringView(view.text, view.begin);
        view.RemovePrefix(|value.text|);
        assert old(view.text)[..|old(view.text)|] == old(view.text);
      }
      status := StoreValue(value);
      status := SetDecodeFunctionAfterListenerCall(DecodeFunction.DecodeParamSeparator, status);
    }

    // ------------------------------------------------------------ Header lines

    method DecodeHeaderLines(view: StringView) returns (status: EHttpStatusCode)
      requires view.Valid() && decodeFunction == DecodeFunction.DecodeHeaderLines
      modifies this, view
      ensures view.Valid()
      ensures Did(StepDecodeHeaderLines(old(State()), old(view.text)), status, view, old(view.text), old(view.begin))
    {
      var matched := view.MatchAndConsume(END_OF_HEADER_LINE);
      if matched {
        if request.fields.httpMethod == GET {
          return HttpOk;
        } else if request.fields.httpMethod != PUT {
          return HttpInternalServerError;
        } else if !foundContentLength {
          return HttpLengthRequired;
        } else if remainingContentLength == 0 {
          return HttpOk;
        } else {
          isDecodingHeader := false;
          decodeFunction := DecodeFunction.DecodeParamName;
          return NeedMoreInput;
        }
      } else if view.text <= END_OF_HEADER_LINE {
        return NeedMoreInput;
      } else {
        status := SetDecodeFunction(DecodeFunction.DecodeHeaderName);
      }
    }

    method ProcessHeaderName(matched: StringView) returns (status: EHttpStatusCode)
      requires matched.Valid() && decodeFunction == DecodeFunction.DecodeHeaderName
      modifies this, request
      ensures var r := DecoderSpec.ProcessHeaderName(old(State()), old(matched.text), 0);
        status == r.status && State() == r.state
    {
      currentHeader := UnknownHeader;
      var header := MatchHttpHeader(matched.text);
      if header.None? {
        status := SetDecodeFunction(DecodeFunction.SkipHeaderValue);
        return;
      }
      currentHeader := header.value;
      status := SetDecodeFunction(DecodeFunction.DecodeHeaderValue);
    }

    method DecodeHeaderName(view: StringView) returns (status: EHttpStatusCode)
      requires view.Valid() && decodeFunction == DecodeFunction.DecodeHeaderName
      modifies this, request, view
      ensures view.Valid()
      ensures Did(StepName(old(State()), old(view.text)), status, view, old(view.text), old(view.begin))
    {
      var matched;
      status, matched := ExtractTerminatedName(view, ":", true);
      if status == ContinueDecoding {
        status := ProcessHeaderName(matched);
      }
    }

    // SkipLeadingOptionalWhitespace: true when a character that is not whitespace is in view.
    static method SkipLeadingOptionalWhitespace(view: StringView) returns (found: bool)
      requires view.Valid()
      modifies view
      ensures view.Valid()
      ensures var m := Span(old(view.text), OptionalWhitespace);
        && view.text == old(view.text)[m..] && view.begin == old(view.begin) + m
        && (found <==> m < |old(view.text)|)
    {
      var beyond := view.FindFirstNotOf(OptionalWhitespace);
      if beyond == MAX_SIZE {
        view.RemovePrefix(|view.text|);
        return false;
      } else {
        view.RemovePrefix(beyond);
        return true;
      }
    }

    static method TrimTrailingOptionalWhitespace(view: StringView)
      requires view.Valid()
      modifies view
      ensures view.Valid() && view.text == TrimTrailing(old(view.text))
    {
      while view.text != "" && Matches(OptionalWhitespace, view.text[|view.text| - 1])
        invariant view.Valid() && TrimTrailing(view.text) == TrimTrailing(old(view.text))
        decreases |view.text|
      {
        view.RemoveSuffix(1);
      }
    }

    // What the value of the current header does to the decoder.
    method ApplyHeaderValue(value: StringView) returns (status: EHttpStatusCode)
      requires value.Valid()
      modifies this, request
      ensures (status, State()) == ApplyHeader(old(State()), old(value.text))
      ensures !status.NeedMoreInput? && decodeFunction == old(decodeFunction)
    {
      status := ContinueDecoding;
      if currentHeader == ContentLengthHeader {
        var convertedOk, contentLength := value.ToUint32();
        if !convertedOk {
          contentLength := 0;
        }
        if foundContentLength || !convertedOk || contentLength > MAX_UINT16 {
          if contentLength > 0 {
            status := HttpPayloadTooLarge;
          } else {
            status := HttpBadRequest;
          }
        } else if contentLength > 0 && request.fields.httpMethod != PUT {
          status := HttpBadRequest;
        } else {
          remainingContentLength := contentLength;
          foundContentLength := true;
        }
      } else if currentHeader == ContentTypeHeader {
        if request.fields.httpMethod == PUT && value.text != MIME_TYPE_WWW_FORM_URL_ENCODED {
          status := HttpUnsupportedMediaType;
        }
      } else if currentHeader == ConnectionHeader {
        if CaseEqual("close", value.text) {
          request.fields := request.fields.(doClose := true);
        }
      }
    }

    method DecodeHeaderValue(view: StringView) returns (status: EHttpStatusCode)
      requires view.Valid() && decodeFunction == DecodeFunction.DecodeHeaderValue
      modifies this, request, view
      ensures view.Valid()
      ensures Did(StepDecodeHeaderValue(old(State()), old(view.text)), status, view, old(view.text), old(view.begin))
    {
      hide Span, ApplyHeader, TrimTrailing;
      ghost var v := view.text;
      ghost var m := Span(v, OptionalWhitespace);
      ghost var n := Span(v[m..], FieldContent);
      var begins := SkipLeadingOptionalWhitespace(view);
      if !begins {
        return NeedMoreInput;
      }
      var ends, value := ExtractMatchingPrefix(view, FieldContent);
      if !ends {
        return NeedMoreInput;
      }
      assert v[m..][..n] == v[m..m + n] && v[m..][n..] == v[m + n..];
      TrimTrailingOptionalWhitespace(value);
      status := ApplyHeaderValue(value);
      status := SetDecodeFunctionAfterListenerCall(DecodeFunction.DecodeHeaderLineEnd, status);
    }

    method SkipHeaderValue(view: StringView) returns (status: EHttpStatusCode)
      requires view.Valid() && decodeFunction == DecodeFunction.SkipHeaderValue
      modifies this, view
      ensures view.Valid()
      ensures Did(StepSkipHeaderValue(old(State()), old(view.text)), status, view, old(view.text), old(view.begin))
    {
      ghost var v := view.text;
      ghost var used := 0;
      while view.text != ""
        invariant view.Valid() && State() == old(State())
        invariant used <= |v| && view.text == v[used..] && view.begin == old(view.begin) + used
        invariant '\r' !in v[..used]
        decreases |view.text|
      {
        if view.text[0] == '\r' {
          IndexOfIs(v, '\r', used);
          status := SetDecodeFunction(DecodeFunction.DecodeHeaderLineEnd);
          return;
        }
        assert v[..used + 1] == v[..used] + [v[used]];
        view.RemovePrefix(1);
        used := used + 1;
      }
      IndexOfIs(v, '\r', used);
      return NeedMoreInput;
    }

    method DecodeHeaderLineEnd(view: StringView) returns (status: EHttpStatusCode)
      requires view.Valid() && decodeFunction == DecodeFunction.DecodeHeaderLineEnd
      modifies this, view
      ensures view.Valid()
      ensures Did(StepDecodeHeaderLineEnd(old(State()), old(view.text)), status, view, old(view.text), old(view.begin))
    {
      var matched := view.MatchAndConsume(END_OF_HEADER_LINE);
      if matched {
        status := SetDecodeFunction(DecodeFunction.DecodeHeaderLines);
      } else if view.text <= END_OF_HEADER_LINE {
        return NeedMoreInput;
      } else {
        return HttpBadRequest;
      }
    }

    // ------------------------------------------------------ Driving the functions

    // Calls the current decode function.
    method CallDecodeFunction(view: StringView) returns (status: EHttpStatusCode)
      requires view.Valid() && Ready(State(), view.text)
      requires isFinalInput ==> remainingContentLength == |view.text|
      modifies this, request, view
      ensures view.Valid()
      ensures Did(Step(old(State()), old(view.text)), status, view, old(view.text), old(view.begin))
    {
      hide StepName, StepMatchStartOfPath, StepDecodeEndOfPath, StepMatchHttpVersion, StepDecodeHeaderLines,
           StepDecodeHeaderValue, StepSkipHeaderValue, StepDecodeHeaderLineEnd, StepDecodeParamValue,
           StepDecodeParamSeparator;
      match decodeFunction
      case DecodeHttpMethod => status := DecodeHttpMethod(view);
      case MatchStartOfPath => status := MatchStartOfPath(view);
      case DecodeApiGroup => status := DecodeApiGroup(view);
      case DecodeApiVersion => status := DecodeApiVersion(view);
      case DecodeDeviceType => status := DecodeDeviceType(view);
      case DecodeDeviceNumber => status := DecodeDeviceNumber(view);
      case DecodeDeviceMethod => status := DecodeDeviceMethod(view);
      case DecodeManagementType => status := DecodeManagementType(view);
      case DecodeManagementMethod => status := DecodeManagementMethod(view);
      case DecodeEndOfPath => status := DecodeEndOfPath(view);
      case MatchHttpVersion => status := MatchHttpVersion(view);
      case DecodeHeaderLines => status := DecodeHeaderLines(view);
      case DecodeHeaderName => status := DecodeHeaderName(view);
      case DecodeHeaderValue => status := DecodeHeaderValue(view);
      case SkipHeaderValue => status := SkipHeaderValue(view);
      case DecodeHeaderLineEnd => status := DecodeHeaderLineEnd(view);
      case DecodeParamName => status := DecodeParamName(view);
      case DecodeParamValue => status := DecodeParamValue(view);
      case DecodeParamSeparator => status := DecodeParamSeparator(view);
    }

    // Decodes the part of the message's header that is in view. Each iteration
    // consumes input or drops to a decode function of lower rank.
    method DecodeMessageHeader(view: StringView, atEndOfInput: bool) returns (status: EHttpStatusCode)
      requires view.Valid() && isDecodingHeader && Ready(State(), view.text)
      modifies this, request, view
      ensures view.Valid()
      ensures Did(DecoderSpec.DecodeMessageHeader(old(State()), old(view.text), atEndOfInput), status, view,
                  old(view.text), old(view.begin))
    {
      hide Step, Loop, Advance, DecoderSpec.DecodeMessageBody;
      ghost var s0, v, begin := State(), view.text, view.begin;
      LoopKeeps(s0, v);
      ghost var used: nat := 0;
      while true
        invariant view.Valid() && isDecodingHeader && Ready(State(), view.text)
        invariant used <= |v| && view.text == v[used..] && view.begin == begin + used
        invariant Loop(s0, v) ==
          var q := Loop(State(), view.text); Outcome(q.status, q.state, used + q.used)
        decreases |view.text|, Rank(decodeFunction)
      {
        ghost var s, t := State(), view.text;
        AdvanceKeeps(s, t);
        LoopUnfolds(s, t);
        status := CallDecodeFunction(view);
        used := used + Step(s, t).used;
        assert v[used - Step(s, t).used..][Step(s, t).used..] == v[used..];
        assert status == ContinueDecoding ==> decodeFunction != s.decodeFunction by { StepProgress(s, t); }
        if status != ContinueDecoding {
          break;
        }
      }
      if status == NeedMoreInput && !isDecodingHeader {
        // The header is complete, and a body follows.
        status := DecodeMessageBody(view, atEndOfInput);
      }
    }

    // Decodes the part of the message's body that is in view.
    method DecodeMessageBody(view: StringView, atEnd: bool) returns (status: EHttpStatusCode)
      requires view.Valid() && !isDecodingHeader && Ready(State(), view.text)
      modifies this, request, view
      ensures view.Valid()
      ensures Did(DecoderSpec.DecodeMessageBody(old(State()), old(view.text), atEnd), status, view,
                  old(view.text), old(view.begin))
    {
      hide Step, Loop, Advance, CheckFails;
      assert foundContentLength && request.fields.httpMethod == PUT;
      var atEndOfInput := atEnd;
      if |view.text| > remainingContentLength {
        return HttpPayloadTooLarge;
      } else if |view.text| == remainingContentLength {
        atEndOfInput := true;
        isFinalInput := true;
      } else if atEndOfInput || isFinalInput {
        return HttpBadRequest;
      }
      LoopKeeps(State(), view.text);
      ghost var checkFails;
      status, checkFails := RepeatInBody(view);
      assert checkFails <==> CheckFailsInBody(old(State()), old(view.text), atEnd);
      if status.IsFinal() {
        assert status.HttpOk? ==> remainingContentLength == 0 && atEndOfInput;
        return status;
      }
      assert status == NeedMoreInput;
      if atEndOfInput {
        return HttpBadRequest;
      }
      assert remainingContentLength > 0;
    }

    // One iteration of the loop of DecodeMessageBody. The 16-bit counter does not
    // wrap around.
    method CountDown(view: StringView) returns (status: EHttpStatusCode)
      requires view.Valid() && !isDecodingHeader && Ready(State(), view.text)
      requires |view.text| <= remainingContentLength
      requires isFinalInput ==> remainingContentLength == |view.text|
      modifies this, request, view
      ensures view.Valid()
      ensures var r := Step(old(State()), old(view.text));
        && r.used <= |old(view.text)| && r.used <= old(remainingContentLength)
        && Did(r.(state := r.state.(remaining := old(remainingContentLength) - r.used)), status, view,
               old(view.text), old(view.begin))
    {
      hide Step, Loop, Advance, Ready, Rank, CheckFails;
      ghost var s := State();
      BodyLoop(s, view.text);
      var sizeBeforeDecode := |view.text|;
      status := CallDecodeFunction(view);
      var consumedChars := sizeBeforeDecode - |view.text|;
      assert consumedChars <= remainingContentLength;
      assert status == ContinueDecoding ==> decodeFunction != s.decodeFunction;
      remainingContentLength := remainingContentLength - consumedChars;
    }

    // The loop of DecodeMessageBody, which counts down the content length. A debug
    // build stops here if its check fails: checkFails says whether it does.
    method RepeatInBody(view: StringView) returns (status: EHttpStatusCode, ghost checkFails: bool)
      requires view.Valid() && !isDecodingHeader && Ready(State(), view.text)
      requires |view.text| <= remainingContentLength
      requires isFinalInput ==> remainingContentLength == |view.text|
      modifies this, request, view
      ensures view.Valid()
      ensures Did(Loop(old(State()), old(view.text)), status, view, old(view.text), old(view.begin))
      ensures checkFails <==> CheckFails(old(State()), old(view.text))
    {
      hide Step, Loop, Advance, Ready, Rank, CheckFails;
      ghost var s0, v, begin := State(), view.text, view.begin;
      checkFails := false;
      ghost var used: nat := 0;
      while true
        invariant view.Valid() && !isDecodingHeader && Ready(State(), view.text)
        invariant used <= |v| && view.text == v[used..] && view.begin == begin + used
        // What remains of the body less what is in view never changes.
        invariant remainingContentLength - |view.text| == s0.remaining - |v|
        invariant isFinalInput == s0.isFinalInput
        invariant CheckFails(s0, v) <==> checkFails || CheckFails(State(), view.text)
        invariant Loop(s0, v) ==
          var q := Loop(State(), view.text); Outcome(q.status, q.state, used + q.used)
        decreases |view.text|, Rank(decodeFunction)
      {
        ghost var s, t := State(), view.text;
        BodyLoop(s, t);
        status := CountDown(view);
        checkFails := checkFails || (t == "" && status == ContinueDecoding);
        assert v[used..][Step(s, t).used..] == v[used + Step(s, t).used..];
        used := used + Step(s, t).used;
        if status != ContinueDecoding {
          break;
        }
      }
    }

    // The part of DecodeBuffer that decodes, the header or the body.
    method DecodeMessage(view: StringView, atEndOfInput: bool) returns (status: EHttpStatusCode)
      requires view.Valid() && AtRest(State())
      modifies this, request, view
      ensures view.Valid()
      ensures Did(DecoderSpec.DecodeMessage(old(State()), old(view.text), atEndOfInput), status, view,
                  old(view.text), old(view.begin))
    {
      hide Step, Loop, DecoderSpec.DecodeMessageHeader, DecoderSpec.DecodeMessageBody;
      if decoderStatus == RequestDecoderStatus.Reset {
        decoderStatus := Decoding;
      }
      if isDecodingHeader {
        status := DecodeMessageHeader(view, atEndOfInput);
      } else {
        status := DecodeMessageBody(view, atEndOfInput);
      }
    }

    // Applies decode functions to the view until the request is decoded, there
    // is an error, or more input is needed.
    method DecodeBuffer(view: StringView, bufferIsFull: bool, atEndOfInput: bool) returns (status: EHttpStatusCode)
      requires view.Valid() && (decodeFunction == NoFunction || AtRest(State()))
      modifies this, request, view
      ensures view.Valid()
      ensures Did(DecoderSpec.DecodeBuffer(old(State()), old(view.text), bufferIsFull, atEndOfInput), status, view,
                  old(view.text), old(view.begin))
    {
      assert decodeFunction == NoFunction || decoderStatus != Decoded;
      hide DecoderSpec.DecodeMessage, AtRest;
      if decodeFunction == NoFunction {
        // Reset has not been called since the last request was decoded.
        return HttpInternalServerError;
      }
      var startSize := |view.text|;
      status := DecodeMessage(view, atEndOfInput);
      if bufferIsFull && status == NeedMoreInput && startSize == |view.text| {
        status := HttpRequestHeaderFieldsTooLarge;
      }
      if status.IsFinal() {
        decodeFunction := NoFunction;
        decoderStatus := Decoded;
      }
    }
  }

  // An iteration of the loop for the body.
  lemma BodyLoop(s: DecoderState, v: string)
    requires Ready(s, v) && !s.isDecodingHeader && |v| <= s.remaining
    ensures var r := Step(s, v); var a := r.(state := r.state.(remaining := s.remaining - r.used));
      && r.used <= |v| && r.state.remaining == s.remaining && !r.state.isDecodingHeader
      && r.state.isFinalInput == s.isFinalInput
      && (CheckFails(s, v) <==> r.status.ContinueDecoding? && (v == "" || CheckFails(a.state, v[r.used..])))
      && (if r.status.ContinueDecoding? then
            && r.state.decodeFunction != s.decodeFunction
            && Ready(a.state, v[r.used..]) && (r.used > 0 || Rank(r.state.decodeFunction) < Rank(s.decodeFunction))
            && var q := Loop(a.state, v[r.used..]); Loop(s, v) == Outcome(q.status, q.state, r.used + q.used)
          else
            Loop(s, v) == a)
  {
    hide Step, Loop, Advance, CheckFails;
    AdvanceKeeps(s, v);
    StepKeeps(s, v);
    LoopUnfolds(s, v);
    CheckUnfolds(s, v);
    BodyAdvance(s, v);
  }

  // In the body the 16-bit counter does not wrap around.
  lemma BodyAdvance(s: DecoderState, v: string)
    requires Ready(s, v) && !s.isDecodingHeader && |v| <= s.remaining
    ensures var r := Step(s, v);
      && r.used <= |v| && r.state.remaining == s.remaining
      && Advance(s, v) == r.(state := r.state.(remaining := s.remaining - r.used))
  {
    hide Step;
    StepKeeps(s, v);
  }
}
