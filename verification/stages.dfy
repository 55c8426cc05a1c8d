/** The two consumer tasks and what the device writes back for one read:
    the executor answers commands, the responder answers rejected lines. */
module Stages {
  import opened ByteText
  import opened Optional
  import opened CliTables
  import opened Listener

  /** What the executor task writes for a command: the READ entry of the
      service table for a READ command, the RESET entry for any other. */
  function ExecutorText(cmd: Command): (t: seq<Byte>)
    ensures t == "READ" <==> cmd.service == Read
    ensures t != "READ" ==> t == "RESET"
  {
    match cmd.service
    case Read => ServiceNames[ServiceIndex(Read)]
    case _ => ServiceNames[ServiceIndex(Reset)]
  }

  /** What the responder task writes for a response: nothing when the
      response names the READ service, otherwise the error's table entry. */
  function ResponderText(resp: Response): (t: seq<Byte>)
    ensures resp.service != Read ==> t in ErrorNames && ErrorOfName(t) == Some(resp.err)
    ensures resp.service == Read ==> t == []
  {
    match resp.service
    case Read => []
    case _ =>
      ErrorNameRoundTrip(resp.err);
      ErrorNames[ErrorIndex(resp.err)]
  }

  /** Everything written back on the serial line in answer to one read. */
  function Reply(read: seq<Byte>): (t: seq<Byte>)
    ensures t == [] <==> |read| == 0
    ensures |read| > 0 ==> t in ServiceNames || t in ErrorNames
  {
    match Listen(read)
    case None => []
    case Some(Forward(c)) => ExecutorText(c)
    case Some(Reject(r)) => ResponderText(r)
  }

  /** A rejected read is answered with exactly its error's name, since every
      rejection carries the NULL service. */
  lemma RejectionAnsweredWithErrorName(read: seq<Byte>)
    requires |read| > 0 && Classify(read).Reject?
    ensures Reply(read) == ErrorName(Classify(read).resp.err)
    ensures ErrorOfName(Reply(read)) == Some(Classify(read).resp.err)
  {
  }

  /** The answer to every read, stated directly on its bytes. */
  lemma ReplyToRead(read: seq<Byte>)
    ensures Reply(read) ==
      if |read| == 0 then []
      else if read[|read| - 1] != LF then "COMMAND_INCORRECT"
      else if Finds(read, "RESET") then "SERVICE_INCORRECT"
      else if Finds(read, "READ") then "READ"
      else if Finds(read, "WRITE") || Finds(read, "CONTROL") || Finds(read, "ROUTINE") then "RESET"
      else "SERVICE_INCORRECT"
  {
  }

  /** "WRITE READ\n" is a READ command: table order, not position. */
  lemma WriteThenReadAnsweredRead(h: seq<Byte>)
    requires h == "WRITE READ\n"
    ensures Reply(h) == "READ"
  {
    assert CString(h) == h by {
      assert h[..|h|] == h;
      assert NUL !in h;
      CStringAt(h, |h|);
    }
    assert OccursAt(h, "READ", 6);
    forall p | 0 <= p <= |h| - 5
      ensures !OccursAt(h, "RESET", p)
    {
      assert h[p..p + 5][2] == h[p + 2];
    }
    ReplyToRead(h);
  }

  /** A line holding no service name is answered `SERVICE_INCORRECT`. */
  lemma UnknownServiceAnswered(h: seq<Byte>)
    requires h == "FOO\n"
    ensures Reply(h) == "SERVICE_INCORRECT"
  {
  }

  /** RESET with a reset method is still answered `SERVICE_INCORRECT`. */
  lemma ResetHardAnswered(h: seq<Byte>)
    requires h == "RESET HARD\n"
    ensures Reply(h) == "SERVICE_INCORRECT"
  {
    assert CString(h) == h by {
      assert h[..|h|] == h;
      assert NUL !in h;
      CStringAt(h, |h|);
    }
    assert OccursAt(h, "RESET", 0);
    ReplyToRead(h);
  }

  /** A READ of a parameter is answered with the bare word READ. */
  lemma ReadParameterAnswered(h: seq<Byte>)
    requires h == "READ ASI15_TRESHOLD\n"
    ensures Reply(h) == "READ"
  {
    assert CString(h) == h by {
      assert h[..|h|] == h;
      assert NUL !in h;
      CStringAt(h, |h|);
    }
    assert OccursAt(h, "READ", 0);
    forall p | 0 <= p <= |h| - 5
      ensures !OccursAt(h, "RESET", p)
    {
      assert h[p..p + 5][2] == h[p + 2];
      assert h[p..p + 5][3] == h[p + 3];
    }
    ReplyToRead(h);
  }

  /** A line without its line feed is answered `COMMAND_INCORRECT`, however
      well-formed the rest of it is. */
  lemma UnterminatedAnswered(h: seq<Byte>)
    requires h == "READ"
    ensures Reply(h) == "COMMAND_INCORRECT"
  {
  }
}
