/** Sending a file in answer to GET: the producer (srcs/Request/RequestGET.cpp:63-75) and the consumer
    (srcs/Client/Client.cpp:216-241,281-294) of the response queue. */
module FileResponse {
  import opened Octets
  import opened BinaryBuffers
  import RS = RequestState
  import opened RequestBody
  import opened Wrappers

  /** `offset` octets of the file have been read; `sent` is the history of what `send` took. */
  datatype Queue = Queue(file: octets, offset: nat, response: octets, workOut: bool, sent: octets) {
    predicate Valid() {
      offset <= |file| && (workOut ==> offset == |file|)
    }

    predicate Finished() {
      workOut && response == ""
    }
  }

  function Least(a: nat, b: nat): nat {
    if a <= b then a else b
  }

  function Produce(q: Queue): (r: Queue)
    requires q.Valid()
    ensures r.Valid()
  {
    var bytes := Least(RS.REQ_BUFFER_SIZE, |q.file| - q.offset);
    if bytes == 0 then q.(workOut := true)
    else q.(offset := q.offset + bytes, response := q.response + q.file[q.offset..q.offset + bytes])
  }

  function Consume(q: Queue, count: nat): Queue {
    var bytes := Least(count, Least(RS.REQ_BUFFER_SIZE, |q.response|));
    q.(sent := q.sent + q.response[..bytes], response := q.response[bytes..])
  }

  /** An event reads the next 65536 octets of the file, or what is left; only at its end is the work complete. */
  lemma ProduceExactly(q: Queue)
    requires q.Valid()
    ensures var r, left := Produce(q), |q.file| - q.offset;
            && (r.workOut <==> q.workOut || left == 0)
            && r.offset == q.offset + (if left <= 65536 then left else 65536)
            && r.response == q.response + q.file[q.offset..r.offset] && r.file == q.file && r.sent == q.sent
  {
    assert q.response + q.file[q.offset..q.offset] == q.response;
  }

  /** And sends what the socket takes of the first 65536 octets of the queue. */
  lemma ConsumeExactly(q: Queue, count: nat)
    ensures exists n: nat ::
              && n <= count && n <= 65536 && n <= |q.response| && (n == count || n == 65536 || n == |q.response|)
              && Consume(q, count) == q.(sent := q.sent + q.response[..n], response := q.response[n..])
  {
    var n := if count <= |q.response| then count else |q.response|;
    var m := if n <= 65536 then n else 65536;
    assert Consume(q, count) == q.(sent := q.sent + q.response[..m], response := q.response[m..]);
  }

  /** A socket-out event in which `send` takes up to `count` octets. */
  function Step(q: Queue, count: nat): (r: Queue)
    requires q.Valid()
    ensures r.Valid()
  {
    Consume(if q.workOut then q else Produce(q), count)
  }

  /** The events of a run, which ends with the first one that finishes. */
  function Run(q: Queue, counts: seq<nat>): (r: Queue)
    requires q.Valid()
    ensures r.Valid()
    decreases counts
  {
    if counts == [] || q.Finished() then q else Run(Step(q, counts[0]), counts[1..])
  }

  function Start(head: octets, file: octets): Queue {
    Queue(file, 0, head, false, "")
  }

  /** Sent and queued octets are the head and the file as far as it has been read. */
  predicate Conserved(q: Queue, head: octets) {
    q.Valid() && q.sent + q.response == head + q.file[..q.offset]
  }

  lemma StepConserves(q: Queue, head: octets, count: nat)
    requires Conserved(q, head)
    ensures Conserved(Step(q, count), head)
  {
    var r := if q.workOut then q else Produce(q);
    assert Conserved(r, head) by {
      var piece := r.file[q.offset..r.offset];
      assert r.file[..r.offset] == q.file[..q.offset] + piece;
      Assoc(q.sent, q.response, piece);
      Assoc(head, q.file[..q.offset], piece);
    }
    var bytes := Least(count, Least(RS.REQ_BUFFER_SIZE, |r.response|));
    Assoc(r.sent, r.response[..bytes], r.response[bytes..]);
    assert r.response[..bytes] + r.response[bytes..] == r.response;
  }

  /** In every run, at every step: nothing is lost, added or reordered; and a finished run has sent the
      head and the whole file. */
  lemma {:induction false} Conservation(q: Queue, head: octets, counts: seq<nat>)
    requires Conserved(q, head)
    ensures var r := Run(q, counts);
            && Conserved(r, head) && r.file == q.file
            && q.sent <= r.sent <= head + q.file
            && (r.Finished() ==> r.sent == head + q.file)
    decreases counts
  {
    if counts != [] && !q.Finished() {
      var q1 := Step(q, counts[0]);
      assert q1.file == q.file && q.sent <= q1.sent;
      StepConserves(q, head, counts[0]);
      hide Step;
      Conservation(q1, head, counts[1..]);
    } else {
      var rest := q.file[q.offset..];
      assert q.file[..q.offset] + rest == q.file;
      Assoc(q.sent, q.response, rest);
      Assoc(head, q.file[..q.offset], rest);
      assert q.Finished() ==> q.file[..q.offset] == q.file && q.sent + "" == q.sent;
    }
  }

  /** What is still to be done: octets to send, and the end of the file to notice. */
  function Rank(q: Queue): nat
    requires q.Valid()
  {
    |q.file| - q.offset + |q.response| + if q.workOut then 0 else 1
  }

  lemma StepProgresses(q: Queue, count: nat)
    requires q.Valid() && !q.Finished() && count > 0
    ensures Rank(Step(q, count)) < Rank(q)
  {}

  /** Under positive sends every run finishes, after at most as many events as there are octets in head
      and file, and one. */
  lemma {:induction false} Terminates(q: Queue, counts: seq<nat>)
    requires q.Valid() && (forall i :: 0 <= i < |counts| ==> counts[i] > 0) && |counts| >= Rank(q)
    ensures Run(q, counts).Finished()
    decreases counts
  {
    if !q.Finished() {
      StepProgresses(q, counts[0]);
      Terminates(Step(q, counts[0]), counts[1..]);
    }
  }

  /** A GET answer reaches the client completely, whatever the sizes of the sends. */
  lemma Delivered(head: octets, file: octets, counts: seq<nat>)
    requires (forall i :: 0 <= i < |counts| ==> counts[i] > 0) && |counts| > |head| + |file|
    ensures Run(Start(head, file), counts).sent == head + file
  {
    hide Run;
    assert file[..0] == "" && "" + head == head + "";
    Terminates(Start(head, file), counts);
    Conservation(Start(head, file), head, counts);
  }

  class RequestGET {
    const file: octets
    const responseBuffer: BinaryBuffer
    var position: nat
    var requestState: RS.Flags
    ghost var sent: octets

    ghost predicate Represents(q: Queue)
      reads this, responseBuffer
    {
      && q.Valid() && file == q.file && position == q.offset && responseBuffer.data == q.response && sent == q.sent
      && RS.Is(requestState, RS.WORK_COMPLETE & !RS.WORK_OUT_COMPLETE)
      && (RS.Is(requestState, RS.WORK_OUT_COMPLETE) <==> q.workOut)
    }

    /** The request is constructed, and its head is queued. */
    constructor (file: octets, head: octets)
      ensures fresh(responseBuffer) && Represents(Start(head, file))
    {
      this.file := file;
      var buffer := new BinaryBuffer();
      buffer.data := head;
      responseBuffer := buffer;
      position := 0;
      requestState := RS.Set(RS.Set(RS.Set(RS.NONE, RS.WORK_IN_COMPLETE), RS.CGI_OUT_COMPLETE), RS.CGI_IN_COMPLETE);
      sent := "";
    }

    method ReadFile(ghost q: Queue)
      requires Represents(q) && !q.workOut
      modifies this`position, this`requestState, responseBuffer
      ensures Represents(Produce(q))
    {
      var bytes := Least(RS.REQ_BUFFER_SIZE, |file| - position);
      if bytes == 0 {
        WorkOutSet(requestState);
        requestState := RS.Set(requestState, RS.WORK_OUT_COMPLETE);
        return;
      }
      responseBuffer.Append(file[position..position + bytes]);
      position := position + bytes;
    }

    /** `send` takes up to `taken` octets of what it is offered, or fails. */
    method SendResponse(taken: Option<nat>, ghost q: Queue) returns (r: Progress)
      requires Represents(q)
      modifies this`sent, responseBuffer
      ensures r == REQ_ERROR <==> taken.None? && q.response != ""
      ensures r == REQ_ERROR ==> Represents(q)
      ensures r != REQ_ERROR ==>
                var after := Consume(q, if taken.Some? then taken.value else 0);
                Represents(after) && r == if after.Finished() then REQ_DONE else REQ_CONTINUE
    {
      hide RS.Is;
      var bytes := Least(RS.REQ_BUFFER_SIZE, |responseBuffer.data|);
      if bytes > 0 {
        if taken.None? {
          return REQ_ERROR;
        }
        bytes := Least(taken.value, bytes);
        sent := sent + responseBuffer.data[..bytes];
        responseBuffer.Erase(0, bytes);
      } else {
        assert q.sent + q.response[..0] == q.sent;
      }
      WorkCompleteSplit(requestState);
      r := if |responseBuffer.data| == 0 && RS.Is(requestState, RS.WORK_COMPLETE) then REQ_DONE else REQ_CONTINUE;
    }

    /** `_handleSocketOut`. */
    method HandleSocketOut(taken: Option<nat>, ghost q: Queue) returns (r: Progress)
      requires Represents(q)
      modifies this`position, this`requestState, this`sent, responseBuffer
      ensures var g := if q.workOut then q else Produce(q);
              && (r == REQ_ERROR <==> taken.None? && g.response != "")
              && (r == REQ_ERROR ==> Represents(g))
      ensures r != REQ_ERROR ==>
                var after := Step(q, if taken.Some? then taken.value else 0);
                Represents(after) && r == if after.Finished() then REQ_DONE else REQ_CONTINUE
    {
      hide Produce, Consume, RS.Is;
      ghost var g := q;
      if !RS.Is(requestState, RS.WORK_OUT_COMPLETE) {
        ReadFile(q);
        g := Produce(q);
      }
      r := SendResponse(taken, g);
    }
  }

  lemma WorkOutSet(x: RS.Flags)
    requires RS.Is(x, RS.WORK_COMPLETE & !RS.WORK_OUT_COMPLETE)
    ensures RS.Is(RS.Set(x, RS.WORK_OUT_COMPLETE), RS.WORK_COMPLETE & !RS.WORK_OUT_COMPLETE)
  {}

  lemma WorkCompleteSplit(x: RS.Flags)
    requires RS.Is(x, RS.WORK_COMPLETE & !RS.WORK_OUT_COMPLETE)
    ensures RS.Is(x, RS.WORK_COMPLETE) <==> RS.Is(x, RS.WORK_OUT_COMPLETE)
  {}
}
