/** The in-memory block transport (mock.rs). */
module Transports {
  import opened Wrappers
  import opened Content

  datatype TransportError = NotConnected | UploadFailed | DownloadFailed | MessageNotFound(id: int)

  datatype Transport = Transport(
    messages: map<int, Data>, nextId: int, connected: bool, failUploads: bool, failDownloads: bool)

  predicate CanUpload(t: Transport) {
    t.connected && !t.failUploads
  }

  predicate CanDownload(t: Transport) {
    t.connected && !t.failDownloads
  }

  function Upload(t: Transport, data: Data): Transport {
    t.(messages := t.messages[t.nextId := data], nextId := t.nextId + 1)
  }

  function Download(t: Transport, id: int): Result<Data, TransportError> {
    if !t.connected then Failure(NotConnected)
    else if t.failDownloads then Failure(DownloadFailed)
    else if id in t.messages then Success(t.messages[id])
    else Failure(MessageNotFound(id))
  }

  class MockTransport {
    var messages: map<int, Data>
    var nextId: int
    var connected: bool
    var failUploads: bool
    var failDownloads: bool

    function View(): Transport
      reads this
    {
      Transport(messages, nextId, connected, failUploads, failDownloads)
    }

    constructor ()
      ensures View() == Transport(map[], 1, true, false, false)
    {
      messages := map[];
      nextId := 1;
      connected, failUploads, failDownloads := true, false, false;
    }

    method UploadBlock(data: Data) returns (r: Result<int, TransportError>)
      modifies this
      ensures r == Success(old(nextId)) <==> old(connected) && !old(failUploads)
      ensures r.Success? ==> messages == old(messages)[old(nextId) := data] && nextId == old(nextId) + 1
      ensures CanUpload(old(View())) ==> r == Success(old(nextId)) && View() == Upload(old(View()), data)
      ensures !CanUpload(old(View())) ==>
                r == Failure(if old(connected) then UploadFailed else NotConnected) && View() == old(View())
    {
      if !connected {
        return Failure(NotConnected);
      }
      if failUploads {
        return Failure(UploadFailed);
      }
      var id := nextId;
      nextId := nextId + 1;
      messages := messages[id := data];
      return Success(id);
    }

    method DownloadBlock(id: int) returns (r: Result<Data, TransportError>)
      ensures r == Download(View(), id)
      ensures r == Failure(NotConnected) <==> !connected
      ensures r == Failure(DownloadFailed) <==> connected && failDownloads
      ensures r == Failure(MessageNotFound(id)) <==> connected && !failDownloads && id !in messages
      ensures r.Success? ==> id in messages && r.value == messages[id]
    {
      if !connected {
        return Failure(NotConnected);
      }
      if failDownloads {
        return Failure(DownloadFailed);
      }
      if id in messages {
        return Success(messages[id]);
      }
      return Failure(MessageNotFound(id));
    }

    method DeleteMessage(id: int) returns (e: Option<TransportError>)
      modifies this
      ensures e == None <==> old(connected) && id in old(messages)
      ensures View() == if e == None then old(View()).(messages := old(messages) - {id}) else old(View())
    {
      if !connected {
        return Some(NotConnected);
      }
      if id in messages {
        messages := messages - {id};
        return None;
      }
      return Some(MessageNotFound(id));
    }
  }
}
