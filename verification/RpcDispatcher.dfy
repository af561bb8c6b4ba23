/** Looking a request's method up and filling in the response. */
module RpcDispatch {
  import opened Bytes
  import opened TinyPBFrame

  const DOT: byte := 46  // "."

  const ERROR_FAILED_DESERIALIZE: int32 := 10000003
  const ERROR_FAILED_SERIALIZE: int32 := 10000004
  const ERROR_SERVICE_NOT_FOUND: int32 := 10000008
  const ERROR_METHOD_NOT_FOUND: int32 := 10000009
  const ERROR_PARSE_SERVICE_NAME: int32 := 10000010

  function Ascii(s: string): (bs: seq<byte>)
    ensures |bs| == |s| && forall i :: 0 <= i < |s| && s[i] < 256 as char ==> bs[i] == s[i] as int
  {
    seq(|s|, i requires 0 <= i < |s| => s[i] as int % 256)
  }

  /** What the generated service code makes of a request's bytes: they do not parse, the result does not
      serialise (with whatever was written by then), or a reply. */
  datatype Outcome = BadRequest | BadReply(partial: seq<byte>) | Reply(pbData: seq<byte>)

  type Service = map<seq<byte>, seq<byte> -> Outcome>

  datatype NameParts = NoParts | NameParts(service: seq<byte>, method_: seq<byte>)

  function FirstDot(name: seq<byte>): (k: nat)
    ensures k <= |name| && DOT !in name[..k] && (k < |name| ==> name[k] == DOT)
  {
    if name == [] || name[0] == DOT then 0
    else
      var k := FirstDot(name[1..]);
      assert name[..k + 1] == [name[0]] + name[1..][..k];
      k + 1
  }

  /** Splits a full method name at its first dot. */
  function ParseServiceFullName(fullName: seq<byte>): (r: NameParts)
    ensures r.NoParts? <==> DOT !in fullName
    ensures r.NameParts? ==> fullName == r.service + [DOT] + r.method_ && DOT !in r.service
  {
    var k := FirstDot(fullName);
    if fullName == [] then NoParts
    else if k == |fullName| then
      assert fullName[..k] == fullName;
      NoParts
    else
      assert fullName[k] in fullName;
      assert fullName == fullName[..k] + [DOT] + fullName[k + 1..];
      NameParts(fullName[..k], fullName[k + 1..])
  }

  lemma DotSplitUnique(a: seq<byte>, b: seq<byte>, c: seq<byte>, d: seq<byte>)
    requires DOT !in a && DOT !in c && a + [DOT] + b == c + [DOT] + d
    ensures a == c && b == d
  {
    var s := a + [DOT] + b;
    assert s[|a|] == DOT && s[|c|] == DOT;
    assert |a| == |c|;
    assert s[..|a|] == a && s[..|c|] == c;
    assert s[|a| + 1..] == b && s[|c| + 1..] == d;
  }

  /** A name is cut between service and method exactly when the service has no dot in it. */
  lemma SplitIff(service: seq<byte>, method_: seq<byte>)
    ensures ParseServiceFullName(service + [DOT] + method_) == NameParts(service, method_) <==> DOT !in service
  {
    var name := service + [DOT] + method_;
    assert name[|service|] == DOT;
    var r := ParseServiceFullName(name);
    if DOT !in service {
      DotSplitUnique(service, method_, r.service, r.method_);
    }
  }

  type Handler = seq<byte> -> Outcome

  datatype Lookup = Found(handler: Handler) | Missing(code: int32, info: string)

  /** The three steps of dispatch that find the method. */
  function LookUp(services: map<seq<byte>, Service>, fullName: seq<byte>): Lookup {
    var parts := ParseServiceFullName(fullName);
    if parts.NoParts? then Missing(ERROR_PARSE_SERVICE_NAME, "parse service name error")
    else if parts.service !in services then Missing(ERROR_SERVICE_NOT_FOUND, "service not found")
    else if parts.method_ !in services[parts.service] then Missing(ERROR_METHOD_NOT_FOUND, "method not found")
    else Found(services[parts.service][parts.method_])
  }

  /** Method names are identifiers. */
  predicate PlainMethods(services: map<seq<byte>, Service>) {
    forall s <- services.Keys :: forall m <- services[s].Keys :: DOT !in m
  }

  /** A registered method is found under its full name exactly when the service's own name has no dot in it.
      The name of a service declared in a package is cut at the package's first dot, and what is noted
      depends on whether the part before it happens to name a service. */
  lemma ServiceReachableIff(services: map<seq<byte>, Service>, service: seq<byte>, method_: seq<byte>)
    requires PlainMethods(services) && service in services && method_ in services[service]
    ensures var found := LookUp(services, service + [DOT] + method_);
            && (found.Found? <==> DOT !in service)
            && (found.Found? ==> found.handler == services[service][method_])
            && (found.Missing? ==> found.code == if service[..FirstDot(service)] in services
                                                 then ERROR_METHOD_NOT_FOUND else ERROR_SERVICE_NOT_FOUND)
  {
    hide FirstDot, ParseServiceFullName;
    SplitIff(service, method_);
    if DOT in service {
      var p, q := CutAtDot(service, method_);
      assert q[|q| - |method_| - 1] == DOT;
    }
  }

  /** Where a name whose service has a dot is cut. */
  lemma CutAtDot(service: seq<byte>, method_: seq<byte>) returns (p: seq<byte>, q: seq<byte>)
    requires DOT in service
    ensures FirstDot(service) < |service| && p == service[..FirstDot(service)]
    ensures q == service[FirstDot(service) + 1..] + [DOT] + method_
    ensures ParseServiceFullName(service + [DOT] + method_) == NameParts(p, q)
  {
    hide FirstDot, ParseServiceFullName;
    var k := FirstDot(service);
    assert service[..|service|] == service;
    p, q := service[..k], service[k + 1..] + [DOT] + method_;
    assert service + [DOT] + method_ == p + [DOT] + q;
    SplitIff(p, q);
  }

  datatype Dispatched = Dispatched(request: Message, response: Message)

  function WithError(m: Message, code: int32, info: string): Message {
    m.(errorCode := code, errorMsg := Ascii(info), errorMsgLen := |info|)
  }

  /** What dispatch leaves of the request and the response. Errors are noted on the request. */
  function DispatchResult(services: map<seq<byte>, Service>, request: Message, response: Message): Dispatched {
    match LookUp(services, request.methodName)
    case Missing(code, info) => Dispatched(WithError(request, code, info), response)
    case Found(handler) =>
      var answered := response.(msgId := request.msgId, methodName := request.methodName);
      match handler(request.pbData)
      case BadRequest =>
        Dispatched(WithError(request, ERROR_FAILED_DESERIALIZE, "deserilize error"), response)
      case BadReply(partial) =>
        Dispatched(WithError(request, ERROR_FAILED_SERIALIZE, "serilize error"), answered.(pbData := partial))
      case Reply(pbData) =>
        Dispatched(request, answered.(pbData := pbData, errorCode := 0))
  }

  function ResponseOf(services: map<seq<byte>, Service>, request: Message): Message {
    DispatchResult(services, request, EMPTY_MESSAGE).response
  }

  // ---- What dispatch promises, without its branches ----

  /** The request names the registered method m of the dot-free service s. */
  predicate Names(services: map<seq<byte>, Service>, request: Message, s: seq<byte>, m: seq<byte>) {
    s in services && m in services[s] && DOT !in s && request.methodName == s + [DOT] + m
  }

  /** The handler was reached: the method is registered and the request's bytes parse. */
  ghost predicate Handled(services: map<seq<byte>, Service>, request: Message) {
    exists s, m :: Names(services, request, s, m) && services[s][m](request.pbData) != BadRequest
  }

  ghost predicate Answered(services: map<seq<byte>, Service>, request: Message) {
    exists s, m :: Names(services, request, s, m) && services[s][m](request.pbData).Reply?
  }

  predicate StartsWithService(services: map<seq<byte>, Service>, name: seq<byte>, s: seq<byte>) {
    s in services && DOT !in s && s + [DOT] <= name
  }

  /** What each error code says about the request. */
  ghost predicate Fails(services: map<seq<byte>, Service>, request: Message, code: int32) {
    var name := request.methodName;
    || (code == ERROR_PARSE_SERVICE_NAME && DOT !in name)
    || (code == ERROR_SERVICE_NOT_FOUND && DOT in name && forall s :: !StartsWithService(services, name, s))
    || (code == ERROR_METHOD_NOT_FOUND
        && exists s :: StartsWithService(services, name, s) && name[|s| + 1..] !in services[s])
    || (code == ERROR_FAILED_DESERIALIZE
        && exists s, m :: Names(services, request, s, m) && services[s][m](request.pbData).BadRequest?)
    || (code == ERROR_FAILED_SERIALIZE
        && exists s, m :: Names(services, request, s, m) && services[s][m](request.pbData).BadReply?)
  }

  /** The text noted with each code. */
  function ErrorText(code: int32): string {
    if code == 10000010 then "parse service name error"
    else if code == 10000008 then "service not found"
    else if code == 10000009 then "method not found"
    else if code == 10000003 then "deserilize error"
    else if code == 10000004 then "serilize error"
    else ""
  }

  /** There is one way to read a name as service, dot, method. */
  lemma NamesUnique(services: map<seq<byte>, Service>, request: Message, s: seq<byte>, m: seq<byte>)
    requires Names(services, request, s, m)
    ensures LookUp(services, request.methodName) == Found(services[s][m])
    ensures forall s', m' :: Names(services, request, s', m') ==> s' == s && m' == m
    ensures forall s' :: StartsWithService(services, request.methodName, s') ==> s' == s
    ensures request.methodName[|s| + 1..] == m
  {
    hide FirstDot;
    SplitIff(s, m);
    forall s' | StartsWithService(services, request.methodName, s')
      ensures s' == s
    {
      StartUnique(request.methodName, s, s');
    }
    forall s', m' | Names(services, request, s', m')
      ensures s' == s && m' == m
    {
      DotSplitUnique(s, m, s', m');
    }
  }

  lemma StartUnique(name: seq<byte>, s: seq<byte>, s': seq<byte>)
    requires DOT !in s && DOT !in s' && s + [DOT] <= name && s' + [DOT] <= name
    ensures s == s'
  {
    assert name == s + [DOT] + name[|s| + 1..];
    assert name == s' + [DOT] + name[|s'| + 1..];
    DotSplitUnique(s, name[|s| + 1..], s', name[|s'| + 1..]);
  }

  /** A found handler is that of the only method the request names; otherwise it names none. */
  lemma LookUpNames(services: map<seq<byte>, Service>, request: Message)
    returns (s: seq<byte>, m: seq<byte>)
    ensures LookUp(services, request.methodName).Found?
            ==> Names(services, request, s, m) && LookUp(services, request.methodName).handler == services[s][m]
    ensures LookUp(services, request.methodName).Missing? ==> forall s', m' :: !Names(services, request, s', m')
  {
    var parts := ParseServiceFullName(request.methodName);
    if LookUp(services, request.methodName).Found? {
      s, m := parts.service, parts.method_;
    } else {
      s, m := [], [];
      forall s', m' | Names(services, request, s', m')
        ensures false
      {
        NamesUnique(services, request, s', m');
      }
    }
  }

  /** Both predicates on the outcome of the lookup. */
  lemma HandledBranch(services: map<seq<byte>, Service>, request: Message)
    ensures var found := LookUp(services, request.methodName);
            && (Handled(services, request) <==> found.Found? && found.handler(request.pbData) != BadRequest)
            && (Answered(services, request) <==> found.Found? && found.handler(request.pbData).Reply?)
  {
    hide LookUp;
    var s, m := LookUpNames(services, request);
    if Handled(services, request) {
      var s', m' :| Names(services, request, s', m') && services[s'][m'](request.pbData) != BadRequest;
      NamesUnique(services, request, s', m');
    }
  }

  /** Whatever the response held before, it takes over the request's identifier and method when the handler
      was reached, and is otherwise left as it was, without so much as an error code. */
  lemma ResponseCarriesIdIff(services: map<seq<byte>, Service>, request: Message, response: Message)
    ensures var r := DispatchResult(services, request, response).response;
            && (Handled(services, request) ==>
                  r == response.(msgId := request.msgId, methodName := request.methodName,
                                 pbData := r.pbData, errorCode := r.errorCode))
            && (!Handled(services, request) ==> r == response)
            && (r.msgId == request.msgId <==> Handled(services, request) || response.msgId == request.msgId)
            && (r.errorCode == 0 <==> Answered(services, request) || response.errorCode == 0)
  {
    hide LookUp, Handled, Answered;
    HandledBranch(services, request);
  }

  /** What the response carries is what the method named by the request made of the request's bytes, and
      nothing else of the response changes. */
  ghost predicate CarriesOutcome(services: map<seq<byte>, Service>, request: Message, before: Message, after: Message) {
    forall s, m :: Names(services, request, s, m) ==>
      match services[s][m](request.pbData)
      case BadRequest => after == before
      case BadReply(partial) =>
        after == before.(msgId := request.msgId, methodName := request.methodName, pbData := partial)
      case Reply(pbData) =>
        after == before.(msgId := request.msgId, methodName := request.methodName, pbData := pbData, errorCode := 0)
  }

  /** The payload comes from the registered handler and from nowhere else. */
  lemma ResponseCarriesReply(services: map<seq<byte>, Service>, request: Message, response: Message)
    ensures CarriesOutcome(services, request, response, DispatchResult(services, request, response).response)
  {
    hide LookUp;
    forall s, m | Names(services, request, s, m)
      ensures LookUp(services, request.methodName) == Found(services[s][m])
    {
      NamesUnique(services, request, s, m);
    }
  }

  /** When the name leads to no method, exactly one of the first three codes says why. */
  lemma MissingFails(services: map<seq<byte>, Service>, request: Message, code: int32)
    requires LookUp(services, request.methodName).Missing?
    ensures Fails(services, request, code) <==> code == LookUp(services, request.methodName).code
  {
    hide FirstDot;
    var name := request.methodName;
    var _, _ := LookUpNames(services, request);
    var parts := ParseServiceFullName(name);
    if parts.NameParts? {
      assert name[|parts.service|] == DOT;
      assert name[|parts.service| + 1..] == parts.method_;
      forall s | StartsWithService(services, name, s)
        ensures s == parts.service
      {
        StartUnique(name, s, parts.service);
      }
      assert parts.service in services ==> StartsWithService(services, name, parts.service);
    } else {
      assert forall s :: s + [DOT] <= name ==> name[|s|] == DOT;
    }
  }

  /** When it leads to one, exactly the code of the step behind it. */
  lemma FoundFails(services: map<seq<byte>, Service>, request: Message, code: int32)
    requires LookUp(services, request.methodName).Found?
    ensures var outcome := LookUp(services, request.methodName).handler(request.pbData);
            Fails(services, request, code) <==>
              (outcome.BadRequest? && code == ERROR_FAILED_DESERIALIZE)
              || (outcome.BadReply? && code == ERROR_FAILED_SERIALIZE)
  {
    hide LookUp;
    var s, m := LookUpNames(services, request);
    NamesUnique(services, request, s, m);
    assert request.methodName[|s|] == DOT;
    assert StartsWithService(services, request.methodName, s);
  }

  lemma MissingText(services: map<seq<byte>, Service>, name: seq<byte>)
    ensures LookUp(services, name).Missing? ==> LookUp(services, name).info == ErrorText(LookUp(services, name).code)
  {
  }

  /** The errors of dispatch, in terms of the registry: a request that is not answered has exactly one reason
      for it, and the code of that reason is noted on the request; a request that is answered has none and
      stays as it was. */
  lemma DispatchErrorIff(services: map<seq<byte>, Service>, request: Message, response: Message)
    ensures var d := DispatchResult(services, request, response);
            && (Answered(services, request) ==> d.request == request)
            && (forall code :: Fails(services, request, code)
                  <==> !Answered(services, request) && code == d.request.errorCode)
            && d.request == request.(errorCode := d.request.errorCode, errorMsg := d.request.errorMsg,
                                     errorMsgLen := d.request.errorMsgLen)
            && (!Answered(services, request) ==>
                  d.request.errorMsg == Ascii(ErrorText(d.request.errorCode))
                  && d.request.errorMsgLen == |d.request.errorMsg|)
  {
    MissingText(services, request.methodName);
    hide LookUp, Fails, Answered, Ascii;
    HandledBranch(services, request);
    forall code | true
      ensures Fails(services, request, code)
         <==> !Answered(services, request) && code == DispatchResult(services, request, response).request.errorCode
    {
      if LookUp(services, request.methodName).Missing? {
        MissingFails(services, request, code);
      } else {
        FoundFails(services, request, code);
      }
    }
  }

  /** The error is noted where the caller never sees it: an unknown service leaves the response as it was. */
  lemma UnknownServiceSilent(request: Message, response: Message)
    requires DOT in request.methodName
    ensures var d := DispatchResult(map[], request, response);
            d.request.errorCode == ERROR_SERVICE_NOT_FOUND && d.response == response
  {
  }

  /** The service p.S, declared in package p, and its method m. */
  lemma PackagedServiceLost(handler: Handler)
    ensures LookUp(map[[112, DOT, 83] := map[[109] := handler]], [112, DOT, 83, DOT, 109])
         == Missing(ERROR_SERVICE_NOT_FOUND, "service not found")
  {
    var service: seq<byte>, method_: seq<byte> := [112, DOT, 83], [109];
    assert service[1] == DOT && service + [DOT] + method_ == [112, DOT, 83, DOT, 109];
    assert |service[..FirstDot(service)]| < 3;
    ServiceReachableIff(map[service := map[method_ := handler]], service, method_);
  }

  class RpcDispatcher {
    var serviceMap: map<seq<byte>, Service>

    constructor ()
      ensures serviceMap == map[]
    {
      serviceMap := map[];
    }

    method RegisterService(name: seq<byte>, service: Service)
      modifies this
      ensures serviceMap == old(serviceMap)[name := service]
    {
      serviceMap := serviceMap[name := service];
    }

    method Dispatch(request0: Message, response0: Message) returns (request: Message, response: Message)
      ensures Dispatched(request, response) == DispatchResult(serviceMap, request0, response0)
      ensures if Handled(serviceMap, request0)
              then response.msgId == request0.msgId && response.methodName == request0.methodName
              else response == response0
      ensures CarriesOutcome(serviceMap, request0, response0, response)
      ensures if Answered(serviceMap, request0) then request == request0
              else Fails(serviceMap, request0, request.errorCode)
                   && request == request0.(errorCode := request.errorCode,
                                           errorMsg := Ascii(ErrorText(request.errorCode)),
                                           errorMsgLen := |ErrorText(request.errorCode)|)
    {
      ResponseCarriesReply(serviceMap, request0, response0);
      ResponseCarriesIdIff(serviceMap, request0, response0);
      DispatchErrorIff(serviceMap, request0, response0);
      hide Handled, Answered, Fails, CarriesOutcome, FirstDot, Ascii;
      request, response := request0, response0;
      var parts := ParseServiceFullName(request.methodName);
      if parts.NoParts? {
        request := WithError(request, ERROR_PARSE_SERVICE_NAME, "parse service name error");
        return;
      }
      if parts.service !in serviceMap {
        request := WithError(request, ERROR_SERVICE_NOT_FOUND, "service not found");
        return;
      }
      var service := serviceMap[parts.service];
      if parts.method_ !in service {
        request := WithError(request, ERROR_METHOD_NOT_FOUND, "method not found");
        return;
      }
      var outcome := service[parts.method_](request.pbData);
      if outcome.BadRequest? {
        request := WithError(request, ERROR_FAILED_DESERIALIZE, "deserilize error");
        return;
      }
      response := response.(msgId := request.msgId);
      response := response.(methodName := request.methodName);
      if outcome.BadReply? {
        response := response.(pbData := outcome.partial);
        request := WithError(request, ERROR_FAILED_SERIALIZE, "serilize error");
        return;
      }
      response := response.(pbData := outcome.pbData);
      response := response.(errorCode := 0);
    }
  }
}
