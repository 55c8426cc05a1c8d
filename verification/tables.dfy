/** An optional value, for searches that may find nothing. */
module Optional {

  datatype Option<+T> = None | Some(value: T)
}

/** The fixed name tables of the command line interface and the enums they
    are indexed by. */
module CliTables {
  import opened ByteText
  import opened Optional

  /** `CLI_cmd_service`; `ServiceNull` is the "no service" value. */
  datatype Service = Reset | Read | Write | Control | Routine | ServiceNull

  /** `CLI_cmd_service_opt1`. */
  datatype Opt1 = Hard | Soft | Start | Result | Opt1Null

  /** `CLI_cmd_service_opt2`. */
  datatype Opt2 = NoResp | Resp | Set | Return | Opt2Null

  /** `CLI_cmd_param`, of which the listener only ever stores `PARAM_NULL`;
      the parameter table is not part of this model. */
  datatype ParamRef = ParamNull

  /** `CLI_resp_status`. */
  datatype RespStatus = Nok | Ok

  /** `CLI_resp_err`. */
  datatype RespErr =
    | CommandIncorrect
    | ServiceIncorrect
    | ValueOutOfRange
    | WriteNotPermit
    | CommonError
    | IncorrectValueType

  /** The service names, searched in this order. */
  const ServiceNames: seq<seq<Byte>> := ["RESET", "READ", "WRITE", "CONTROL", "ROUTINE"]

  const Opt1Names: seq<seq<Byte>> := ["HARD", "SOFT", "START", "RESULT"]

  const Opt2Names: seq<seq<Byte>> := ["NO_RESP", "RESP", "SET", "RETURN"]

  /** The texts the responder writes, indexed by `CLI_resp_err`. */
  const ErrorNames: seq<seq<Byte>> := [
    "COMMAND_INCORRECT",
    "SERVICE_INCORRECT",
    "VALUE_OUT_OF_RANGE",
    "WRITE_NOT_PERMIT",
    "COMMON_ERROR",
    "INCORRECT_VALUE_TYPE"
  ]

  /** The service enum value of a position in the service table. */
  function ServiceAt(i: nat): (s: Service)
    requires i < |ServiceNames|
    ensures s != ServiceNull
  {
    [Reset, Read, Write, Control, Routine][i]
  }

  /** The position of a service in the service table. */
  function ServiceIndex(s: Service): (i: nat)
    requires s != ServiceNull
    ensures i < |ServiceNames|
  {
    match s
    case Reset => 0
    case Read => 1
    case Write => 2
    case Control => 3
    case Routine => 4
  }

  /** The enum values and the table positions correspond one to one. */
  lemma ServiceIndexRoundTrip()
    ensures forall i :: 0 <= i < |ServiceNames| ==> ServiceIndex(ServiceAt(i)) == i
    ensures forall s :: s != ServiceNull ==> ServiceAt(ServiceIndex(s)) == s
  {
  }

  /** The option1 enum value of a position in the option1 table. */
  function Opt1At(j: nat): (o: Opt1)
    requires j < |Opt1Names|
    ensures o != Opt1Null
    ensures j == 0 ==> o == Hard
  {
    [Hard, Soft, Start, Result][j]
  }

  /** The option2 enum value of a position in the option2 table. */
  function Opt2At(k: nat): (o: Opt2)
    requires k < |Opt2Names|
    ensures o != Opt2Null
    ensures k == 0 ==> o == NoResp
  {
    [NoResp, Resp, Set, Return][k]
  }

  /** The position of an error in the error name table. */
  function ErrorIndex(e: RespErr): (k: nat)
    ensures k < |ErrorNames|
  {
    match e
    case CommandIncorrect => 0
    case ServiceIncorrect => 1
    case ValueOutOfRange => 2
    case WriteNotPermit => 3
    case CommonError => 4
    case IncorrectValueType => 5
  }

  /** The error kind of a position in the error name table. */
  function ErrorAt(k: nat): (e: RespErr)
    requires k < |ErrorNames|
  {
    [CommandIncorrect, ServiceIncorrect, ValueOutOfRange, WriteNotPermit, CommonError, IncorrectValueType][k]
  }

  /** The error kinds and the error table positions correspond one to one. */
  lemma ErrorIndexRoundTrip()
    ensures forall k :: 0 <= k < |ErrorNames| ==> ErrorIndex(ErrorAt(k)) == k
    ensures forall e :: ErrorAt(ErrorIndex(e)) == e
  {
  }

  /** The text written for an error. */
  function ErrorName(e: RespErr): (t: seq<Byte>)
    ensures t in ErrorNames
    ensures |t| > 0
  {
    ErrorNames[ErrorIndex(e)]
  }

  /** No two entries of the error table are spelled alike. */
  lemma ErrorNamesDistinct()
    ensures forall a, b :: 0 <= a < b < |ErrorNames| ==> ErrorNames[a] != ErrorNames[b]
  {
  }

  /** The first position from `from` on whose table entry is exactly `t`. */
  function IndexOfName(names: seq<seq<Byte>>, t: seq<Byte>, from: nat): (r: Option<nat>)
    requires from <= |names|
    ensures r.Some? ==> from <= r.value < |names| && names[r.value] == t
    ensures r.Some? ==> forall i :: from <= i < r.value ==> names[i] != t
    ensures r.None? ==> forall i :: from <= i < |names| ==> names[i] != t
    decreases |names| - from
  {
    if from == |names| then None
    else if names[from] == t then Some(from)
    else IndexOfName(names, t, from + 1)
  }

  /** Reads an error back from the text the responder wrote. */
  function ErrorOfName(t: seq<Byte>): (r: Option<RespErr>)
    ensures r.Some? ==> t in ErrorNames
  {
    match IndexOfName(ErrorNames, t, 0)
    case None => None
    case Some(k) => Some(ErrorAt(k))
  }

  /** The written error text determines the error. */
  lemma ErrorNameRoundTrip(e: RespErr)
    ensures ErrorOfName(ErrorName(e)) == Some(e)
  {
  }
}
