/**
 * The handling of an inbound ContractRequestMessage: the exchange's body is read as a
 * contract request, the header is replaced by a response correlated with the request,
 * and the body by a contract offer that lets the requester USE the requested artifact
 * inside each configured container, for one hour of policy evaluation.
 */
module ContractRequestProcessor {
  import opened Wrappers
  import opened Calendar
  import opened Text
  import opened InfoModel

  /** Delay allowed between the offer's date and the evaluation of its policy: 3 600 000 ms. */
  const PolicyEvaluationMarginMs: nat := 3_600_000

  /** The exceptions that abort the handling of a request. */
  datatype Error =
    | UndeserializableRequest           // the serializer rejects the body
    | RequestWithoutPermission          // `permission[0]` of an empty list
    | MissingRequestHeader              // no ContractRequestMessage header: `.id` of null
    | MissingContainerUriProperty       // no container-URI property: `.toString()` of null
    | MalformedContainerUri(text: string) // `URI.create` rejects a piece
    | UnserializableOffer               // the serializer fails on the offer
  {
    /** The exceptions raised before the response header is written. */
    predicate RaisedBeforeResponse() {
      UndeserializableRequest? || RequestWithoutPermission? || MissingRequestHeader?
    }

    /** The exceptions raised once the response header has been written. */
    predicate RaisedAfterResponse() {
      MissingContainerUriProperty? || MalformedContainerUri? || UnserializableOffer?
    }
  }

  /**
   * The foreign code the handler calls, as values: the information-model serializer in
   * both directions and the syntax check `URI.create` performs.
   */
  datatype Collaborators = Collaborators(
    deserializeRequest: string -> Option<ContractRequest>,
    serializeOffer: ContractOffer -> Option<string>,
    isUri: string -> bool)

  /** `it.trim()` applied to every piece, in order. */
  function TrimAll(pieces: seq<string>): (r: seq<string>)
    ensures |r| == |pieces| && forall i :: 0 <= i < |r| ==> r[i] == Trim(pieces[i])
  {
    seq(|pieces|, i requires 0 <= i < |pieces| => Trim(pieces[i]))
  }

  /** How many of the texts, from the front, `URI.create` accepts. */
  function WellFormedPrefix(texts: seq<string>, isUri: string -> bool): (n: nat)
    ensures n <= |texts|
    ensures forall j :: 0 <= j < n ==> isUri(texts[j])
    ensures n < |texts| ==> !isUri(texts[n])
  {
    if texts == [] || !isUri(texts[0]) then 0
    else 1 + WellFormedPrefix(texts[1..], isUri)
  }

  /**
   * `split(Regex("\\s+")).map { URI.create(it.trim()) }` on the property's string form:
   * one URI per piece, in order, so never none; the first malformed piece aborts it.
   */
  function ContainerUris(property: string, isUri: string -> bool): (r: Result<seq<Uri>, Error>)
    ensures r.Failure? ==> r.error.MalformedContainerUri?
    ensures r.Success? ==> (|r.value| == |Split(property)| >= 1
      && forall i :: 0 <= i < |Split(property)| ==> r.value[i] == Trim(Split(property)[i]))
  {
    var uris := TrimAll(Split(property));
    var n := WellFormedPrefix(uris, isUri);
    if n == |uris| then Success(uris) else Failure(MalformedContainerUri(uris[n]))
  }

  /** Every trimmed piece is accepted exactly when the accepted prefix is all of them. */
  lemma TrimmedPiecesWellFormed(pieces: seq<string>, isUri: string -> bool)
    ensures WellFormedPrefix(TrimAll(pieces), isUri) == |pieces| ==> forall i :: 0 <= i < |pieces| ==> isUri(Trim(pieces[i]))
    ensures (forall i :: 0 <= i < |pieces| ==> isUri(Trim(pieces[i]))) ==> WellFormedPrefix(TrimAll(pieces), isUri) == |pieces|
  {
    var uris := TrimAll(pieces);
    var n := WellFormedPrefix(uris, isUri);
    if n < |uris| {
      assert !isUri(Trim(pieces[n]));
    } else {
      forall i | 0 <= i < |pieces| ensures isUri(Trim(pieces[i])) {
        assert uris[i] == Trim(pieces[i]);
      }
    }
  }

  /** The container URIs parse exactly when every trimmed piece of the property is a well-formed URI. */
  lemma ContainerUrisWellFormed(property: string, isUri: string -> bool)
    ensures ContainerUris(property, isUri).Success? ==>
      forall i :: 0 <= i < |Split(property)| ==> isUri(Trim(Split(property)[i]))
    ensures (forall i :: 0 <= i < |Split(property)| ==> isUri(Trim(Split(property)[i]))) ==>
      ContainerUris(property, isUri).Success?
  {
    TrimmedPiecesWellFormed(Split(property), isUri);
  }

  /** A failure names the first piece that is malformed once trimmed; every piece before it is well-formed. */
  lemma ContainerUrisReportsFirstMalformed(property: string, isUri: string -> bool)
    ensures ContainerUris(property, isUri).Failure? ==>
      var pieces := Split(property);
      var n := WellFormedPrefix(TrimAll(pieces), isUri);
      n < |pieces| && !isUri(Trim(pieces[n])) && (forall j :: 0 <= j < n ==> isUri(Trim(pieces[j])))
      && ContainerUris(property, isUri).error == MalformedContainerUri(Trim(pieces[n]))
  {
    var pieces := Split(property);
    var uris := TrimAll(pieces);
    var n := WellFormedPrefix(uris, isUri);
    if n == |uris| {
      return;
    }
    assert uris[n] == Trim(pieces[n]);
    assert ContainerUris(property, isUri) == Failure(MalformedContainerUri(uris[n]));
    assert forall j :: 0 <= j < n ==> isUri(Trim(pieces[j])) by {
      forall j | 0 <= j < n ensures isUri(Trim(pieces[j])) {
        assert uris[j] == Trim(pieces[j]);
      }
    }
  }

  /**
   * An empty property is one empty piece: it yields one container, the empty URI, unless
   * `URI.create` rejects the empty text; it never yields no container at all.
   */
  lemma EmptyPropertyIsOneContainer(isUri: string -> bool)
    ensures ContainerUris("", isUri) == if isUri("") then Success([""]) else Failure(MalformedContainerUri(""))
  {
    assert Split("") == [""];
    assert Trim("") == "";
    assert TrimAll([""]) == [""];
  }

  /**
   * A non-empty property made only of `\s` is two empty pieces: it yields two containers,
   * both the empty URI, unless `URI.create` rejects the empty text.
   */
  lemma BlankPropertyIsTwoContainers(property: string, isUri: string -> bool)
    requires property != [] && forall k :: 0 <= k < |property| ==> IsRegexSpace(property[k])
    ensures ContainerUris(property, isUri) == if isUri("") then Success(["", ""]) else Failure(MalformedContainerUri(""))
  {
    var t := SkipSpaceRun(property);
    assert t == [];
    assert Split(property) == [""] + Split([]);
    assert Split(property) == ["", ""];
    assert Trim("") == "";
    assert TrimAll(["", ""]) == ["", ""];
  }

  /** Leading whitespace yields an empty first piece, hence a first container whose URI is empty. */
  lemma LeadingSpaceGivesEmptyContainer(property: string, isUri: string -> bool)
    requires property != [] && IsRegexSpace(property[0])
    requires ContainerUris(property, isUri).Success?
    ensures |ContainerUris(property, isUri).value| >= 2
    ensures ContainerUris(property, isUri).value[0] == ""
  {
    var t := Split(SkipSpaceRun(property));
    assert Split(property) == [""] + t;
    assert Split(property)[0] == "";
    assert Trim("") == "";
  }

  /** Policy evaluation must happen before the offer's date plus the margin, a date-time literal. */
  function TimeConstraint(contractDate: Timestamp): (c: Constraint)
    requires Valid(contractDate)
    ensures c.leftOperand == PolicyEvaluationTime && c.operator == Lt
    ensures c.rightOperand.TypedLiteral? && c.rightOperand.literalType == DateTimeStamp
  {
    Constraint(PolicyEvaluationTime, Lt, TypedLiteral(AddMillis(contractDate, PolicyEvaluationMarginMs), DateTimeStamp))
  }

  /** The time constraint's bound is a valid date exactly 3 600 000 ms after the offer's date. */
  lemma TimeConstraintBound(contractDate: Timestamp)
    requires Valid(contractDate)
    ensures var bound := TimeConstraint(contractDate).rightOperand.value;
      Valid(bound) && Before(contractDate, bound) && contractDate.year <= bound.year
      && Ordinal(contractDate.year, bound) == Ordinal(contractDate.year, contractDate) + PolicyEvaluationMarginMs
  {
    AddMillisExact(contractDate.year, contractDate, PolicyEvaluationMarginMs);
  }

  /** Usage is pinned to the system (container) `uri`, given as a reference. */
  function SystemConstraint(uri: Uri): (c: Constraint)
    ensures c.leftOperand == System && c.operator == SameAs && c.rightOperand == Reference(uri)
  {
    Constraint(System, SameAs, Reference(uri))
  }

  /** `containerUris.map { ... }`: one USE permission on `artifact` per container, in order. */
  function OfferPermissions(artifact: Uri, uris: seq<Uri>, timeConstraint: Constraint): (ps: seq<Permission>)
    ensures |ps| == |uris|
    ensures forall i :: 0 <= i < |ps| ==>
      ps[i].target == artifact && ps[i].actions == [Use]
      && ps[i].constraints == [SystemConstraint(uris[i]), timeConstraint]
  {
    if uris == [] then []
    else [Permission(artifact, [Use], [SystemConstraint(uris[0]), timeConstraint])] + OfferPermissions(artifact, uris[1..], timeConstraint)
  }

  /** The offer answering a request for `artifact`, dated `now` and valid for one calendar year. */
  function SynthesizeOffer(artifact: Uri, uris: seq<Uri>, now: Timestamp): (offer: ContractOffer)
    requires Valid(now)
    ensures offer.contractDate == now && offer.contractStart == now
    ensures offer.contractEnd == AddYear(now) && Before(offer.contractStart, offer.contractEnd)
    ensures |offer.permissions| == |uris|
    ensures forall i :: 0 <= i < |uris| ==>
      offer.permissions[i].target == artifact && offer.permissions[i].actions == [Use]
      && offer.permissions[i].constraints == [SystemConstraint(uris[i]), TimeConstraint(now)]
  {
    ContractOffer(now, now, AddYear(now), OfferPermissions(artifact, uris, TimeConstraint(now)))
  }

  /** The exchange's header and body after one turn, and the exception the turn ends with, if any. */
  datatype Turn = Turn(header: Header, body: string, failure: Option<Error>)

  /** The request deserialises, has a first permission, and comes with a ContractRequestMessage header. */
  predicate RequestAccepted(header: Header, body: string, lib: Collaborators) {
    lib.deserializeRequest(body).Some? && |lib.deserializeRequest(body).value.permissions| >= 1
    && header.ContractRequestMessage?
  }

  /** `contractRequest.permission[0].target`. */
  function RequestedArtifact(body: string, lib: Collaborators): Uri
    requires lib.deserializeRequest(body).Some? && |lib.deserializeRequest(body).value.permissions| >= 1
  {
    lib.deserializeRequest(body).value.permissions[0].target
  }

  /** The property is present, every piece is a URI, and the serializer accepts the offer. */
  predicate OfferDelivered(artifact: Uri, containerUriProperty: Option<string>, lib: Collaborators, now: Timestamp)
    requires Valid(now)
  {
    containerUriProperty.Some? && ContainerUris(containerUriProperty.value, lib.isUri).Success?
    && lib.serializeOffer(SynthesizeOffer(artifact, ContainerUris(containerUriProperty.value, lib.isUri).value, now)).Some?
  }

  /**
   * The part of a turn after the response header has been written: the container URIs
   * are read, the offer for `artifact` is built and serialised into the body. Each
   * exception is raised exactly when its step is the first to fail.
   */
  function OfferTurn(response: Header, artifact: Uri, body: string, containerUriProperty: Option<string>,
                     lib: Collaborators, now: Timestamp): (t: Turn)
    requires Valid(now)
    ensures t.header == response
    ensures t.failure.Some? ==> t.body == body
    ensures t.failure.Some? ==> t.failure.value.RaisedAfterResponse()
    ensures t.failure == Some(MissingContainerUriProperty) <==> containerUriProperty.None?
    ensures (t.failure.Some? && t.failure.value.MalformedContainerUri?) <==>
      (containerUriProperty.Some? && ContainerUris(containerUriProperty.value, lib.isUri).Failure?)
    ensures containerUriProperty.Some? && ContainerUris(containerUriProperty.value, lib.isUri).Failure? ==>
      t.failure == Some(ContainerUris(containerUriProperty.value, lib.isUri).error)
    ensures t.failure == Some(UnserializableOffer) <==>
      (containerUriProperty.Some? && ContainerUris(containerUriProperty.value, lib.isUri).Success?
       && lib.serializeOffer(SynthesizeOffer(artifact, ContainerUris(containerUriProperty.value, lib.isUri).value, now)).None?)
    ensures t.failure == None <==> OfferDelivered(artifact, containerUriProperty, lib, now)
    ensures t.failure == None ==> (OfferDelivered(artifact, containerUriProperty, lib, now)
      && lib.serializeOffer(SynthesizeOffer(artifact, ContainerUris(containerUriProperty.value, lib.isUri).value, now))
         == Some(t.body))
  {
    match containerUriProperty
    case None => Turn(response, body, Some(MissingContainerUriProperty))
    case Some(property) =>
      match ContainerUris(property, lib.isUri)
      case Failure(e) => Turn(response, body, Some(e))
      case Success(uris) =>
        match lib.serializeOffer(SynthesizeOffer(artifact, uris, now))
        case None => Turn(response, body, Some(UnserializableOffer))
        case Some(serialized) => Turn(response, serialized, None)
  }

  /**
   * One call of the processor on an exchange with IDSCP2 `header`, `body` and the string
   * form of the container-URI property (None when absent). The response header is
   * written before the property is read, so a later failure leaves it in place.
   */
  function Handle(header: Header, body: string, containerUriProperty: Option<string>, lib: Collaborators, now: Timestamp): (t: Turn)
    requires Valid(now)
    ensures t.failure == Some(UndeserializableRequest) <==> lib.deserializeRequest(body).None?
    ensures t.failure == Some(RequestWithoutPermission) <==>
      (lib.deserializeRequest(body).Some? && |lib.deserializeRequest(body).value.permissions| == 0)
    ensures t.failure == Some(MissingRequestHeader) <==>
      (lib.deserializeRequest(body).Some? && |lib.deserializeRequest(body).value.permissions| >= 1
       && !header.ContractRequestMessage?)
    ensures RequestAccepted(header, body, lib) ==>
      t == OfferTurn(ContractResponseMessageBuilder(header.id), RequestedArtifact(body, lib), body, containerUriProperty, lib, now)
    ensures t.failure == None <==>
      (RequestAccepted(header, body, lib) && OfferDelivered(RequestedArtifact(body, lib), containerUriProperty, lib, now))
    ensures t.failure == None ==> header.ContractRequestMessage? && t.header == ContractResponseMessageBuilder(header.id)
    ensures lib.deserializeRequest(body).Some? && |lib.deserializeRequest(body).value.permissions| == 0 ==>
      t == Turn(header, body, Some(RequestWithoutPermission))
    ensures t.failure.Some? ==> t.body == body
    ensures t.header == header <==> t.failure.Some? && t.failure.value.RaisedBeforeResponse()
    ensures t.header != header ==> header.ContractRequestMessage? && t.header == ContractResponseMessageBuilder(header.id)
  {
    match lib.deserializeRequest(body)
    case None => Turn(header, body, Some(UndeserializableRequest))
    case Some(request) =>
      if |request.permissions| == 0 then Turn(header, body, Some(RequestWithoutPermission))
      else if !header.ContractRequestMessage? then Turn(header, body, Some(MissingRequestHeader))
      else OfferTurn(ContractResponseMessageBuilder(header.id), request.permissions[0].target, body, containerUriProperty, lib, now)
  }

  /**
   * The exceptions raised once the response header is written, each tied to the step of
   * the container URIs and the offer that fails first (lines 72, 74 and 115 in that order).
   */
  lemma HandleLaterFailures(header: Header, body: string, containerUriProperty: Option<string>, lib: Collaborators, now: Timestamp)
    requires Valid(now)
    ensures var t := Handle(header, body, containerUriProperty, lib, now);
      t.failure == Some(MissingContainerUriProperty) <==>
      (RequestAccepted(header, body, lib) && containerUriProperty.None?)
    ensures var t := Handle(header, body, containerUriProperty, lib, now);
      (t.failure.Some? && t.failure.value.MalformedContainerUri?) <==>
      (RequestAccepted(header, body, lib) && containerUriProperty.Some?
       && ContainerUris(containerUriProperty.value, lib.isUri).Failure?)
    ensures var t := Handle(header, body, containerUriProperty, lib, now);
      t.failure == Some(UnserializableOffer) <==>
      (RequestAccepted(header, body, lib) && containerUriProperty.Some?
       && ContainerUris(containerUriProperty.value, lib.isUri).Success?
       && lib.serializeOffer(SynthesizeOffer(RequestedArtifact(body, lib),
            ContainerUris(containerUriProperty.value, lib.isUri).value, now)).None?)
  {
  }

  /**
   * What a successful turn sends back: a response correlated with the inbound message,
   * and the serialisation of an offer with one permission per piece of the container-URI
   * property, each on the artifact of the request's first permission, pinned to that
   * piece's container and sharing one time constraint.
   */
  lemma SuccessfulTurn(header: Header, body: string, containerUriProperty: Option<string>, lib: Collaborators, now: Timestamp)
    requires Valid(now)
    requires Handle(header, body, containerUriProperty, lib, now).failure == None
    ensures header.ContractRequestMessage?
    ensures Handle(header, body, containerUriProperty, lib, now).header.correlationMessage == header.id
    ensures lib.deserializeRequest(body).Some? && containerUriProperty.Some?
    ensures var artifact := lib.deserializeRequest(body).value.permissions[0].target;
      var pieces := Split(containerUriProperty.value);
      var offer := SynthesizeOffer(artifact, ContainerUris(containerUriProperty.value, lib.isUri).value, now);
      lib.serializeOffer(offer) == Some(Handle(header, body, containerUriProperty, lib, now).body)
      && |offer.permissions| == |pieces|
      && forall i :: 0 <= i < |pieces| ==>
        offer.permissions[i].target == artifact
        && offer.permissions[i].constraints[0] == SystemConstraint(Trim(pieces[i]))
        && offer.permissions[i].constraints[1] == TimeConstraint(now)
  {
  }

  /**
   * Two configured containers, `a` and `b` separated by a space: the offer holds two USE
   * permissions on the artifact, pinned to `a` and to `b` in that order.
   */
  lemma TwoContainerOffer(artifact: Uri, a: string, b: string, now: Timestamp, isUri: string -> bool)
    requires Valid(now) && isUri(a) && isUri(b) && a != [] && b != []
    requires forall k :: 0 <= k < |a| ==> !IsWhitespace(a[k])
    requires forall k :: 0 <= k < |b| ==> !IsWhitespace(b[k])
    ensures ContainerUris(a + " " + b, isUri) == Success([a, b])
    ensures SynthesizeOffer(artifact, [a, b], now).permissions == [
        Permission(artifact, [Use], [SystemConstraint(a), TimeConstraint(now)]),
        Permission(artifact, [Use], [SystemConstraint(b), TimeConstraint(now)])]
  {
    var pieces := [a, b];
    assert NoRegexSpace(a) && NoRegexSpace(b);
    assert SplitShaped(pieces);
    assert JoinWithSpace(pieces) == a + " " + b;
    SplitJoin(pieces);
    assert Trim(a) == a && Trim(b) == b;
    ContainerUrisWellFormed(a + " " + b, isUri);
    assert ContainerUris(a + " " + b, isUri).value == pieces;
  }

  /** The part of a Camel exchange the processor touches. */
  class Exchange {
    /** The IDSCP2 header of the exchange's message. */
    var header: Header
    /** The message body, as a string. */
    var body: string
    /** The container-URI exchange property in its `toString()` form; None when absent. */
    var containerUriProperty: Option<string>

    constructor (header: Header, body: string, containerUriProperty: Option<string>)
      ensures this.header == header && this.body == body && this.containerUriProperty == containerUriProperty
    {
      this.header := header;
      this.body := body;
      this.containerUriProperty := containerUriProperty;
    }
  }

  /**
   * `ContractRequestProcessor.process`: overwrites the exchange's header and then its body,
   * as Handle describes; `failure` is the exception that ends the call, if any.
   */
  method Process(exchange: Exchange, lib: Collaborators, now: Timestamp) returns (failure: Option<Error>)
    requires Valid(now)
    modifies exchange`header, exchange`body
    ensures Turn(exchange.header, exchange.body, failure)
      == Handle(old(exchange.header), old(exchange.body), exchange.containerUriProperty, lib, now)
  {
    var request := lib.deserializeRequest(exchange.body);
    if request.None? {
      return Some(UndeserializableRequest);
    }
    if |request.value.permissions| == 0 {
      return Some(RequestWithoutPermission);
    }
    var requestedArtifact := request.value.permissions[0].target;
    var contractRequestMessage := exchange.header;
    if !contractRequestMessage.ContractRequestMessage? {
      return Some(MissingRequestHeader);
    }
    exchange.header := ContractResponseMessageBuilder(contractRequestMessage.id);

    if exchange.containerUriProperty.None? {
      return Some(MissingContainerUriProperty);
    }
    var containerUris := ContainerUris(exchange.containerUriProperty.value, lib.isUri);
    if containerUris.Failure? {
      return Some(containerUris.error);
    }
    var contractOffer := SynthesizeOffer(requestedArtifact, containerUris.value, now);
    var serialized := lib.serializeOffer(contractOffer);
    if serialized.None? {
      return Some(UnserializableOffer);
    }
    exchange.body := serialized.value;
    return None;
  }
}
