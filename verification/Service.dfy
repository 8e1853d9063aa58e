/** Server::handle_accept and the io_service that runs the handlers, on the session object. */
module Service {
  import opened Bytes
  import opened Audio
  import opened Sessions
  import opened SessionInvariants
  import opened SessionRuns
  import opened ServerSessions

  /** A session as start_accept makes it and handle_accept starts it. */
  method Accept(polarity: Polarity, pipeline: SharedPipeline, version: byte, length: u16) returns (session: ServerSession)
    requires pipeline.Valid()
    ensures fresh(session) && session.Valid() && session.polarity == polarity && session.pipeline == pipeline
    ensures fresh(session.info) && fresh(session.info.store) && fresh(session.input) && fresh(session.output)
    ensures Fresh(session.View())
  {
    session := new ServerSession(polarity, pipeline, version, length);
    session.Start();
  }

  /** Completions handed to the object one by one take it through the run of the state machine. */
  method Serve(session: ServerSession, es: seq<Event>)
    requires session.Valid() && CanRun(session.polarity, session.View(), es)
    modifies session, session.info, session.info.store, session.input, session.output, session.pipeline
    ensures session.View() == RunOf(session.polarity, old(session.View()), es)
    ensures session.pipeline.View()
         == AudioOf(session.polarity, old(session.View()), es, old(session.pipeline.View()), session.pipeline.frameSize)
  {
    ghost var start, audio, frameSize := session.View(), session.pipeline.View(), session.pipeline.frameSize;
    for i := 0 to |es|
      invariant CanRun(session.polarity, session.View(), es[i..])
      invariant RunOf(session.polarity, session.View(), es[i..]) == RunOf(session.polarity, start, es)
      invariant AudioOf(session.polarity, session.View(), es[i..], session.pipeline.View(), frameSize)
             == AudioOf(session.polarity, start, es, audio, frameSize)
    {
      assert es[i..][0] == es[i] && es[i..][1..] == es[i + 1..];
      session.Complete(es[i]);
    }
  }
}
