/** The listener task: takes the bytes of one read off the serial line and
    puts exactly one message on the command queue or the response queue. */
module Listener {
  import opened ByteText
  import opened Optional
  import opened CliTables

  /** Size of the listener's receive buffer. */
  const BufSize: nat := 1024

  /** `CLI_cmd_t` without its value fields: what goes on the command queue. */
  datatype Command = Command(service: Service, opt1: Opt1, opt2: Opt2, param: ParamRef)

  /** `CLI_cmd_response_t` without its value fields: what goes on the
      response queue. */
  datatype Response = Response(
    service: Service,
    opt1: Opt1,
    opt2: Opt2,
    param: ParamRef,
    status: RespStatus,
    err: RespErr)

  /** The one message a non-empty read produces, tagged by its queue. */
  datatype Outcome = Forward(cmd: Command) | Reject(resp: Response)

  /** The command fields as reset at the top of every iteration. */
  const IdleCommand := Command(ServiceNull, Opt1Null, Opt2Null, ParamNull)

  /** The response struct as initialised: status and error are zero, that is
      `NOK` and `COMMAND_INCORRECT`. */
  const InitialResponse := Response(ServiceNull, Opt1Null, Opt2Null, ParamNull, Nok, CommandIncorrect)

  /** The listener only ever writes the service and error of its response
      struct; every other field keeps its initial value. */
  predicate HeldUntouched(held: Response)
  {
    held.opt1 == Opt1Null && held.opt2 == Opt2Null && held.param == ParamNull && held.status == Nok
  }

  /** The response sent for a rejected line. */
  function ErrorResponse(err: RespErr): Response
  {
    InitialResponse.(err := err)
  }

  /** The first table position from `from` on whose name occurs in `h`. */
  function FirstMatch(h: seq<Byte>, names: seq<seq<Byte>>, from: nat): (r: Option<nat>)
    requires from <= |names|
    ensures r.Some? ==> from <= r.value < |names| && Contains(h, names[r.value])
    ensures r.Some? ==> forall i :: from <= i < r.value ==> !Contains(h, names[i])
    ensures r.None? ==> forall i :: from <= i < |names| ==> !Contains(h, names[i])
    decreases |names| - from
  {
    if from == |names| then None
    else if Contains(h, names[from]) then Some(from)
    else FirstMatch(h, names, from + 1)
  }

  /** The service table position the listener selects for a buffer. */
  function SelectedService(buf: seq<Byte>): Option<nat>
  {
    FirstMatch(CString(buf), ServiceNames, 0)
  }

  /** The outcome of one non-empty read. */
  function Classify(read: seq<Byte>): (o: Outcome)
    requires |read| > 0
    ensures o.Reject? ==> o.resp == ErrorResponse(o.resp.err)
    ensures o.Reject? ==> o.resp.service == ServiceNull && HeldUntouched(o.resp)
    ensures o.Reject? ==> o.resp.err == CommandIncorrect || o.resp.err == ServiceIncorrect
    ensures o.Forward? ==> o.cmd.service in {Read, Write, Control, Routine}
    ensures o.Forward? ==> o.cmd == IdleCommand.(service := o.cmd.service)
  {
    if read[|read| - 1] != LF then
      Reject(ErrorResponse(CommandIncorrect))
    else
      match SelectedService(read)
      case None => Reject(ErrorResponse(ServiceIncorrect))
      case Some(i) =>
        if ServiceAt(i) == Reset then Reject(ErrorResponse(ServiceIncorrect))
        else Forward(IdleCommand.(service := ServiceAt(i)))
  }

  /** What one read produces: nothing for an empty read, otherwise exactly
      one message. */
  function Listen(read: seq<Byte>): (o: Option<Outcome>)
    ensures o.None? <==> |read| == 0
  {
    if |read| == 0 then None else Some(Classify(read))
  }

  /** The option loops of the RESET branch as written: both loops test and
      advance the service loop's counter `i`, while the tables are indexed
      with `j` and `k`, which stay 0. `i0` is the counter on entry. */
  method ScanResetOptions(data: seq<Byte>, i0: int) returns (opt1: Opt1, opt2: Opt2, i: int)
    ensures i >= i0 && i >= |Opt1Names|
    ensures opt1 == (if i0 < |Opt1Names| && Finds(data, "HARD") then Hard else Opt1Null)
    ensures opt2 == (if i0 < |Opt1Names| && Finds(data, "HARD") && Finds(data, "NO_RESP") then NoResp else Opt2Null)
  {
    assert Opt1Names[0] == "HARD" && Opt2Names[0] == "NO_RESP";
    ghost var hard := Finds(data, Opt1Names[0]);
    ghost var noResp := Finds(data, Opt2Names[0]);
    opt1, opt2 := Opt1Null, Opt2Null;
    i := i0;
    var j := 0;
    while i < |Opt1Names|
      invariant i0 <= i
      invariant i0 < i ==> i0 < |Opt1Names|
      invariant opt1 == (if i0 < i && hard then Hard else Opt1Null)
      invariant opt2 == (if i0 < i && hard && noResp then NoResp else Opt2Null)
    {
      var found1 := StrStr(data, Opt1Names[j]);
      if found1 {
        opt1 := Opt1At(j);
        ghost var entry := i;
        var k := 0;
        while i < |Opt2Names|
          invariant entry <= i
          invariant i > entry ==> !noResp
          invariant opt2 == (if i0 < entry && hard && noResp then NoResp else Opt2Null)
        {
          var found2 := StrStr(data, Opt2Names[k]);
          if found2 {
            opt2 := Opt2At(k);
            break;
          }
          i := i + 1;
        }
      }
      i := i + 1;
    }
  }

  /** One iteration of the listener's loop, with the statements in the order
      written. `buffer` is the receive buffer as the previous iteration left
      it, `held` the response struct, and `read` the bytes the UART driver
      returned, at most `BufSize - 1` of them. */
  method ListenOnce(buffer: seq<Byte>, held: Response, read: seq<Byte>)
    returns (data: seq<Byte>, held': Response, sent: Option<Outcome>)
    requires |buffer| == BufSize
    requires |read| <= BufSize - 1
    requires HeldUntouched(held)
    ensures sent == Listen(read)
    ensures |data| == BufSize
    ensures |read| > 0 ==> data[..|read|] == read && data[|read|] == NUL
    ensures |read| == 0 ==> data == buffer
    ensures HeldUntouched(held')
  {
    data, held' := buffer, held;
    var cmd := IdleCommand;
    var badInput := false;
    var len := |read|;
    if len == 0 {
      return data, held', None;
    }
    data := read + [NUL] + buffer[len + 1..];
    CStringStopsAtNul(read, buffer[len + 1..]);
    if data[len - 1] != LF {
      badInput := true;
      held' := held'.(service := ServiceNull, err := CommandIncorrect);
    } else {
      label exit: {
        var i := 0;
        while i < |ServiceNames|
          invariant 0 <= i <= |ServiceNames|
          invariant forall m :: 0 <= m < i ==> !Finds(data, ServiceNames[m])
          invariant cmd == IdleCommand
        {
          var found := StrStr(data, ServiceNames[i]);
          if found {
            cmd := cmd.(service := ServiceAt(i));
            match cmd.service {
              case Reset =>
                var opt1, opt2, _ := ScanResetOptions(data, i);
                cmd := cmd.(opt1 := opt1, opt2 := opt2);
                badInput := true;
                held' := held'.(service := ServiceNull, err := ServiceIncorrect);
                break exit;
              case _ =>
            }
            break exit;
          }
          i := i + 1;
        }
        badInput := true;
        held' := held'.(service := ServiceNull, err := ServiceIncorrect);
      }
    }
    if !badInput {
      sent := Some(Forward(cmd));
    } else {
      sent := Some(Reject(held'));
    }
  }

  /** A line not ending in a line feed is rejected with `COMMAND_INCORRECT`,
      and only such a line is. */
  lemma UnterminatedRejected(read: seq<Byte>)
    requires |read| > 0
    ensures read[|read| - 1] != LF <==> Classify(read) == Reject(ErrorResponse(CommandIncorrect))
  {
  }

  /** A terminated line with none of the service names in it is rejected
      with `SERVICE_INCORRECT`. */
  lemma NoServiceRejected(read: seq<Byte>)
    requires |read| > 0 && read[|read| - 1] == LF
    requires forall m :: 0 <= m < |ServiceNames| ==> !Finds(read, ServiceNames[m])
    ensures Classify(read) == Reject(ErrorResponse(ServiceIncorrect))
  {
  }

  /** The service is the first table entry found in the line, wherever in
      the line the names stand. */
  lemma TableOrderSelects(read: seq<Byte>, i: nat)
    requires |read| > 0 && read[|read| - 1] == LF
    requires i < |ServiceNames| && Finds(read, ServiceNames[i])
    requires forall m :: 0 <= m < i ==> !Finds(read, ServiceNames[m])
    ensures Classify(read) ==
      if ServiceAt(i) == Reset then Reject(ErrorResponse(ServiceIncorrect))
      else Forward(IdleCommand.(service := ServiceAt(i)))
  {
  }

  /** Conversely, a forwarded command names the first table entry found in
      a terminated line. */
  lemma ForwardedServiceIsFirst(read: seq<Byte>)
    requires |read| > 0 && Classify(read).Forward?
    ensures read[|read| - 1] == LF
    ensures Finds(read, ServiceNames[ServiceIndex(Classify(read).cmd.service)])
    ensures forall m :: 0 <= m < ServiceIndex(Classify(read).cmd.service) ==> !Finds(read, ServiceNames[m])
  {
  }

  /** Any terminated line holding "RESET" is rejected with
      `SERVICE_INCORRECT`, whatever else it holds. */
  lemma ResetAlwaysRejected(read: seq<Byte>)
    requires |read| > 0 && read[|read| - 1] == LF
    requires Finds(read, "RESET")
    ensures Classify(read) == Reject(ErrorResponse(ServiceIncorrect))
  {
  }

  /** "READ" beats every later name: a terminated line holding "READ" but
      not "RESET" is a READ command, even when "WRITE" comes first in it. */
  lemma ReadWinsOverLaterNames(read: seq<Byte>)
    requires |read| > 0 && read[|read| - 1] == LF
    requires Finds(read, "READ") && !Finds(read, "RESET")
    ensures Classify(read) == Forward(Command(Read, Opt1Null, Opt2Null, ParamNull))
  {
  }

  /** A read is forwarded exactly when it is a terminated line that holds one
      of the four accepted service names and not "RESET". */
  lemma ForwardedExactlyWhen(read: seq<Byte>)
    requires |read| > 0
    ensures Classify(read).Forward? <==>
      && read[|read| - 1] == LF
      && !Finds(read, "RESET")
      && exists m :: 1 <= m < |ServiceNames| && Finds(read, ServiceNames[m])
  {
  }

  /** How many of the reads are non-empty. */
  function NonEmptyReads(inputs: seq<seq<Byte>>): nat
  {
    if |inputs| == 0 then 0
    else NonEmptyReads(inputs[..|inputs| - 1]) + (if |inputs[|inputs| - 1]| > 0 then 1 else 0)
  }

  /** What the command queue and the response queue receive, in order, for a
      run of reads. */
  function Queued(inputs: seq<seq<Byte>>): (q: (seq<Command>, seq<Response>))
    ensures |q.0| + |q.1| == NonEmptyReads(inputs)
    ensures forall c :: c in q.0 ==> c.service != Reset && c.service != ServiceNull
    ensures forall r :: r in q.1 ==> r.service == ServiceNull
  {
    if |inputs| == 0 then ([], [])
    else
      var (commands, responses) := Queued(inputs[..|inputs| - 1]);
      match Listen(inputs[|inputs| - 1])
      case None => (commands, responses)
      case Some(Forward(c)) => (commands + [c], responses)
      case Some(Reject(r)) => (commands, responses + [r])
  }

  /** The listener's endless loop run over a sequence of reads. The buffer
      starts with arbitrary contents and keeps whatever earlier inputs left
      behind their terminator; the response struct persists between
      iterations. */
  method ListenerTask(buffer: seq<Byte>, inputs: seq<seq<Byte>>)
    returns (commands: seq<Command>, responses: seq<Response>)
    requires |buffer| == BufSize
    requires forall m :: 0 <= m < |inputs| ==> |inputs[m]| <= BufSize - 1
    ensures (commands, responses) == Queued(inputs)
    ensures |commands| + |responses| == NonEmptyReads(inputs)
  {
    var data := buffer;
    var held := InitialResponse;
    commands, responses := [], [];
    var n := 0;
    while n < |inputs|
      invariant n <= |inputs|
      invariant |data| == BufSize
      invariant HeldUntouched(held)
      invariant (commands, responses) == Queued(inputs[..n])
    {
      var sent;
      data, held, sent := ListenOnce(data, held, inputs[n]);
      assert inputs[..n + 1][..n] == inputs[..n];
      match sent {
        case None =>
        case Some(Forward(c)) => commands := commands + [c];
        case Some(Reject(r)) => responses := responses + [r];
      }
      n := n + 1;
    }
    assert inputs[..n] == inputs;
  }
}
