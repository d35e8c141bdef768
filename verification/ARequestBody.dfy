/** The request body reader (srcs/Request/ARequest-body.cpp), proved against the value semantics of
    modules ChunkedCoding and IdentityCoding. */
module RequestBody {
  import opened Octets
  import opened Numbers
  import opened BinaryBuffers
  import RS = RequestState
  import opened ChunkedCoding
  import Identity = IdentityCoding
  import ChunkedFile
  import opened FileWrites

  // incs/RequestContext.hpp
  datatype Progress = REQ_CONTINUE | REQ_DONE | REQ_ERROR

  class RequestContext {
    const buffer: BinaryBuffer
    const maxBodySize: int
    var requestState: RS.Flags
    var statusCode: int

    constructor (buffer: BinaryBuffer, maxBodySize: int)
      ensures this.buffer == buffer && this.maxBodySize == maxBodySize
      ensures requestState == RS.NONE && statusCode == 0
    {
      this.buffer := buffer;
      this.maxBodySize := maxBodySize;
      requestState := RS.NONE;
      statusCode := 0;
    }
  }

  /** What a call answers: with a CGI only a wrong chunk delimiter is reported as done. */
  function Answer(v: Verdict, cgi: bool): Progress {
    if v.Running? || (cgi && !v.BadDelimiter?) then REQ_CONTINUE else REQ_DONE
  }

  function Finished(x: RS.Flags, v: Verdict): RS.Flags {
    if v.Running? then x else RS.Set(RS.Set(x, RS.WORK_IN_COMPLETE), RS.CGI_OUT_COMPLETE)
  }

  class ARequest {
    const context: RequestContext
    const cgi: bool
    var contentLength: int
    var contentTotalLength: int
    // the octets given to _writeChunk, what its file branch wrote, and what a CGI took
    var sink: octets
    var file: seq<Cell>
    var taken: octets
    // what `send` has answered
    ghost var sends: seq<int>
    // whether the file could be moved to its place
    var moved: bool

    ghost predicate Valid()
      reads this
    {
      contentLength >= -1
    }

    /** The decoder that the fields make up while the transfer runs. */
    ghost function State(): Decoder
      reads this, context.buffer
    {
      Decoder(context.buffer.data, contentLength, contentTotalLength, sink, Running)
    }

    /** A transfer is about to begin, with what the head has left in the buffer: -1 stands for a chunked one. */
    constructor (context: RequestContext, cgi: bool, length: int)
      requires length >= -1
      ensures this.context == context && this.cgi == cgi && file == [] && taken == "" && moved
      ensures State() == Decoder(context.buffer.data, length, 0, "", Running) && Valid()
    {
      this.context := context;
      this.cgi := cgi;
      contentLength := length;
      contentTotalLength := 0;
      sink := "";
      file := [];
      taken := "";
      sends := [];
      moved := true;
    }

    /** What a call of the file branch adds: as many octets as `_contentLength` says. */
    function ToFile(buffer: octets): seq<Cell>
      reads this
    {
      if cgi then [] else Written(buffer, if contentLength > 0 then contentLength else 0)
    }

    /** A CGI is sent `size` octets, may take fewer, and is not sent the others again. */
    method WriteChunk(size: nat) returns (err: Progress)
      requires size <= |context.buffer.data|
      modifies this`sink, this`file, this`taken, this`sends
      ensures if cgi then |sends| == |old(sends)| + 1 && sends[..|old(sends)|] == old(sends) else sends == old(sends)
      ensures err == REQ_ERROR <==> cgi && sends[|old(sends)|] < 0
      ensures cgi && err != REQ_ERROR ==>
                var bytes := sends[|old(sends)|];
                taken == old(taken) + context.buffer.data[..if bytes <= size then bytes else size]
      ensures err == REQ_ERROR ==> cgi && sink == old(sink) && file == old(file) && taken == old(taken)
      ensures err != REQ_ERROR ==> err == REQ_CONTINUE && sink == old(sink) + context.buffer.data[..size]
      ensures err != REQ_ERROR ==> file == old(file) + ToFile(context.buffer.data)
      ensures !cgi ==> taken == old(taken)
      ensures old(taken) <= taken <= old(taken) + context.buffer.data[..size]
    {
      if cgi {
        var bytes: int := *;
        sends := sends + [bytes];
        if bytes < 0 {
          return REQ_ERROR;
        }
        taken := taken + context.buffer.data[..if bytes <= size then bytes else size];
      } else {
        file := file + Written(context.buffer.data, if contentLength > 0 then contentLength else 0);
      }
      sink := sink + context.buffer.data[..size];
      err := REQ_CONTINUE;
    }

    /** The file is moved to its place, over one that may be there. */
    method SaveFile()
      modifies context`statusCode, this`moved
      ensures context.statusCode == if cgi then 200 else if moved then 201 else 500
      ensures cgi ==> moved == old(moved)
    {
      if cgi {
        context.statusCode := 200;
        return;
      }
      context.statusCode := 201;
      var removed, renamed: bool := *, *;
      if !removed {
        context.statusCode := 500;
      }
      if !renamed {
        context.statusCode := 500;
      }
      moved := removed && renamed;
    }

    /** The status of a transfer that has ended. */
    function Status(v: Verdict): int
      reads this
    {
      if v.Saved? && !cgi && !moved then 500 else StatusOf(v, cgi)
    }

    /** The flags and the answer that end a transfer. */
    method Finish(status: int, answer: Progress) returns (r: Progress)
      modifies context
      ensures r == answer && context.statusCode == status
      ensures context.requestState == RS.Set(RS.Set(old(context.requestState), RS.WORK_IN_COMPLETE), RS.CGI_OUT_COMPLETE)
    {
      context.statusCode := status;
      context.requestState := RS.Set(context.requestState, RS.WORK_IN_COMPLETE);
      context.requestState := RS.Set(context.requestState, RS.CGI_OUT_COMPLETE);
      r := answer;
    }

    /** A call has brought the fields from `before` to `after`. */
    twostate predicate Reached(after: Decoder)
      reads this, context, context.buffer
    {
      && context.buffer.data == after.buffer
      && contentLength == after.length
      && contentTotalLength == after.total
      && sink == after.sink
      && context.requestState == Finished(old(context.requestState), after.verdict)
      && context.statusCode == (if after.verdict.Running? then old(context.statusCode) else Status(after.verdict))
    }

    method ReadContent() returns (r: Progress)
      requires contentLength > 0 && |context.buffer.data| <= INT32_MAX
      modifies this, context, context.buffer
      ensures r == REQ_ERROR ==> cgi && sink == old(sink) && file == old(file)
      ensures r != REQ_ERROR ==> var after := Identity.Take(old(State()));
                Reached(after) && r == Answer(after.verdict, cgi)
      ensures r != REQ_ERROR ==> file == old(file) + if cgi then [] else Identity.Writes(old(State()))
    {
      if contentLength - Int32(|context.buffer.data|) >= 0 {
        var err := WriteChunk(|context.buffer.data|);
        if err == REQ_ERROR {
          return REQ_ERROR;
        }
        assert context.buffer.data[..|context.buffer.data|] == context.buffer.data;
        contentLength := contentLength - |context.buffer.data|;
        context.buffer.Clear();
      } else {
        r := Finish(400, if cgi then REQ_CONTINUE else REQ_DONE);
        return;
      }
      if contentLength == 0 {
        SaveFile();
        r := Finish(context.statusCode, if cgi then REQ_CONTINUE else REQ_DONE);
        return;
      }
      r := REQ_CONTINUE;
    }

    /** "Read end of chunk": `go` tells whether the pass goes on. */
    method ReadEndOfChunk() returns (go: bool, r: Progress)
      requires Valid() && context.buffer.data != ""
      modifies this, context, context.buffer
      ensures var next := EndChunk(old(State())); go == next.Go? && Reached(next.d) && r == Answer(next.d.verdict, cgi)
      ensures file == old(file) && sink == old(sink)
    {
      go, r := true, REQ_CONTINUE;
      if contentLength == 0 {
        if |context.buffer.data| >= 2 {
          var pos := context.buffer.RFind(CRLF, 0);
          if pos == NPOS {
            assert !OccursAt(context.buffer.data, CRLF, 0);
            r := Finish(400, REQ_DONE);
            return false, r;
          }
          context.buffer.Erase(0, pos + 2);
          contentLength := -1;
        } else if |context.buffer.data| == 1 && context.buffer.data[0] != '\r' {
          r := Finish(400, if cgi then REQ_CONTINUE else REQ_DONE);
          return false, r;
        } else {
          return false, REQ_CONTINUE;
        }
      }
    }

    /** One of the shorter terminators, tried in the order of the table, agrees with the buffer. */
    method AgreesWithPrefix() returns (found: bool)
      ensures found == MayTerminate(context.buffer.data)
    {
      var i := 4;
      while i > 0
        invariant 0 <= i <= 4
        invariant forall j :: i < j <= 4 ==> !Agrees(context.buffer.data, CHUNK_TERMINATOR[..j])
      {
        if context.buffer.Compare(CHUNK_TERMINATOR[..i]) == 0 {
          return true;
        }
        i := i - 1;
      }
      found := false;
    }

    /** "Read end of transfer": a size line of value zero. */
    method ReadEndOfTransfer() returns (r: Progress)
      requires contentLength == 0
      modifies this, context, context.buffer
      ensures file == old(file) && contentTotalLength == old(contentTotalLength) && sink == old(sink)
      ensures var b := old(context.buffer.data);
              var v := if Agrees(b, CHUNK_TERMINATOR) then Saved(b) else if MayTerminate(b) then Running else BadRequest;
              && contentLength == (if v.Running? then -1 else 0)
              && context.buffer.data == (if v.Saved? then "" else b)
              && context.requestState == Finished(old(context.requestState), v)
              && context.statusCode == (if v.Running? then old(context.statusCode) else Status(v))
              && r == Answer(v, cgi)
    {
      var status := 400;
      if context.buffer.Compare(CHUNK_TERMINATOR) == 0 {
        context.buffer.Clear();
        SaveFile();
        status := context.statusCode;
      } else {
        var found := AgreesWithPrefix();
        if found {
          contentLength := -1;
          return REQ_CONTINUE;
        }
      }
      r := Finish(status, if cgi then REQ_CONTINUE else REQ_DONE);
    }

    /** "Read chunk size". */
    method ReadChunkSize() returns (go: bool, r: Progress)
      requires Valid() && contentLength != 0
      modifies this, context, context.buffer
      ensures var next := SizeLine(old(State()), context.maxBodySize);
              go == next.Go? && Reached(next.d) && r == Answer(next.d.verdict, cgi)
      ensures file == old(file) && sink == old(sink)
    {
      hide Find, ToContentLength;
      go, r := true, REQ_CONTINUE;
      if contentLength == -1 {
        var pos := Find(context.buffer.data, CRLF);
        if pos == NPOS {
          return false, REQ_CONTINUE;
        }
        var line := context.buffer.Substr(0, pos);
        if line == "" {
          r := Finish(400, if cgi then REQ_CONTINUE else REQ_DONE);
          return false, r;
        }
        contentLength := ToContentLength(line, true);
        if contentLength == CONTENT_LENGTH_INVALID {
          r := Finish(400, if cgi then REQ_CONTINUE else REQ_DONE);
          return false, r;
        }
        if contentLength == 0 {
          r := ReadEndOfTransfer();
          return false, r;
        }
        context.buffer.Erase(0, pos + 2);
        contentTotalLength := Int32(contentTotalLength + contentLength);
        if contentLength == CONTENT_LENGTH_TOO_LARGE || contentLength > context.maxBodySize
           || contentTotalLength > context.maxBodySize {
          r := Finish(413, if cgi then REQ_CONTINUE else REQ_DONE);
          return false, r;
        }
      }
    }

    /** "Read chunk". */
    method ReadChunkData() returns (r: Progress)
      requires contentLength > 0 && |context.buffer.data| <= INT32_MAX
      modifies this, context.buffer
      ensures r == REQ_ERROR ==> cgi && sink == old(sink) && file == old(file)
      ensures r != REQ_ERROR ==> r == REQ_CONTINUE && State() == ChunkData(old(State()))
                                 && old(sink) <= sink && file == old(file) + old(ToFile(context.buffer.data))
    {
      if Int32(|context.buffer.data|) > contentLength {
        r := WriteChunk(contentLength);
        if r == REQ_ERROR {
          return;
        }
        context.buffer.Erase(0, contentLength);
        contentLength := 0;
      } else {
        r := WriteChunk(|context.buffer.data|);
        if r == REQ_ERROR {
          return;
        }
        assert context.buffer.data[..|context.buffer.data|] == context.buffer.data;
        contentLength := contentLength - |context.buffer.data|;
        context.buffer.Clear();
      }
    }

    method ReadChunked() returns (r: Progress)
      requires Valid() && |context.buffer.data| <= INT32_MAX
      modifies this, context, context.buffer
      ensures r == REQ_ERROR ==> cgi && old(sink) <= sink && file == old(file)
      ensures r != REQ_ERROR ==> var after := Drain(old(State()), context.maxBodySize);
                Reached(after) && r == Answer(after.verdict, cgi)
      ensures !cgi ==> file == old(file) + ChunkedFile.Writes(old(State()), context.maxBodySize)
    {
      hide EndChunk, SizeLine, ChunkData, Drain, ChunkedFile.Writes, Written;
      ghost var max := context.maxBodySize;
      while context.buffer.data != ""
        invariant Valid() && |context.buffer.data| <= INT32_MAX && old(sink) <= sink
        invariant context.requestState == old(context.requestState) && context.statusCode == old(context.statusCode)
        invariant Drain(State(), max) == Drain(old(State()), max)
        invariant cgi ==> file == old(file)
        invariant !cgi ==> file + ChunkedFile.Writes(State(), max) == old(file) + ChunkedFile.Writes(old(State()), max)
        decreases |context.buffer.data|
      {
        ghost var d := State();
        var go;
        go, r := ReadEndOfChunk();
        if !go {
          PassStops(d, max);
          return;
        }
        ghost var x := State();
        assert EndChunk(d) == Go(x);
        go, r := ReadChunkSize();
        if !go {
          PassStops(d, max);
          return;
        }
        ghost var y := State();
        assert SizeLine(x, max) == Go(y);
        r := ReadChunkData();
        if r == REQ_ERROR {
          return;
        }
        PassGoesOn(d, max);
      }
      NothingToRead(State(), max);
      r := REQ_CONTINUE;
    }
  
    /** The fields are what the decoder `d` says, and the work-in flag is set exactly when it has ended. */
    ghost predicate Represents(d: Decoder)
      reads this, context, context.buffer
    {
      && !cgi
      && context.buffer.data == d.buffer && contentLength == d.length
      && contentTotalLength == d.total && sink == d.sink
      && (RS.Is(context.requestState, RS.WORK_IN_COMPLETE) <==> !d.verdict.Running?)
      && (d.verdict.Running? ==> d.Live() && context.statusCode == 0)
      && (!d.verdict.Running? ==> context.statusCode == Status(d.verdict))
    }

    /** `workIn` of an upload to a file (srcs/Request/RequestPOST.cpp:149-155). */
    method WorkIn(chunked: bool, ghost d: Decoder)
      requires Represents(d) && d.verdict.Running? && (chunked || d.length > 0) && |d.buffer| <= INT32_MAX
      modifies this, context, context.buffer
      ensures Represents(if chunked then Drain(d, context.maxBodySize) else Identity.Take(d))
      ensures file == old(file) + if chunked then ChunkedFile.Writes(d, context.maxBodySize) else Identity.Writes(d)
    {
      hide Drain, Find, ChunkedFile.Writes;
      assert State() == d;
      label before:
      var r;
      if chunked {
        r := ReadChunked();
      } else {
        r := ReadContent();
      }
      WorkInKept(old@before(context.requestState));
    }

    /** What the client does with octets that it has read for an upload (srcs/Client/Client.cpp:145,257-263). */
    method HandleRead(piece: octets, chunked: bool, ghost d: Decoder)
      requires Represents(d) && |d.buffer + piece| <= INT32_MAX
      requires d.verdict.Running? && !chunked ==> d.length > 0
      modifies this, context, context.buffer
      ensures Represents(if chunked then Feed(d, piece, context.maxBodySize) else Identity.TakePiece(d, piece))
      ensures var more := d.Append(piece);
              file == old(file) + if !d.verdict.Running? then []
                                  else if chunked then ChunkedFile.Writes(more, context.maxBodySize) else Identity.Writes(more)
    {
      hide Drain, Find, ChunkedFile.Writes, Identity.Take, Identity.Writes;
      context.buffer.Append(piece);
      if !RS.Is(context.requestState, RS.WORK_IN_COMPLETE) {
        WorkIn(chunked, d.Append(piece));
      }
    }
  }

  /** The end of a transfer sets the flags 0x10 and 0x80. */
  lemma FinishedWord(x: RS.Flags, v: Verdict)
    ensures Finished(x, v) == if v.Running? then x else x | 0x90
  {}

  lemma PassStops(d: Decoder, max: int)
    requires d.Live() && d.buffer != "" && (EndChunk(d).Stop? || SizeLine(EndChunk(d).d, max).Stop?)
    ensures Drain(d, max) == (if EndChunk(d).Stop? then EndChunk(d).d else SizeLine(EndChunk(d).d, max).d)
    ensures ChunkedFile.Writes(d, max) == []
  {
    hide EndChunk, SizeLine;
  }

  lemma PassGoesOn(d: Decoder, max: int)
    requires d.Live() && d.buffer != "" && EndChunk(d).Go? && SizeLine(EndChunk(d).d, max).Go?
    ensures var y := SizeLine(EndChunk(d).d, max).d;
            && Drain(d, max) == Drain(ChunkData(y), max)
            && ChunkedFile.Writes(d, max) == Written(y.buffer, y.length) + ChunkedFile.Writes(ChunkData(y), max)
  {
    hide EndChunk, SizeLine;
  }

  lemma NothingToRead(d: Decoder, max: int)
    requires d.Live() && d.buffer == ""
    ensures Drain(d, max) == d && ChunkedFile.Writes(d, max) == []
  {}

  lemma WorkInKept(x: RS.Flags)
    ensures RS.Is(RS.Set(RS.Set(x, RS.WORK_IN_COMPLETE), RS.CGI_OUT_COMPLETE), RS.WORK_IN_COMPLETE)
  {}
}
