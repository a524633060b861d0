/** Connecting to the emulator. */
module Connect {
  import opened SlotTable

  /** An address the name resolved to: the descriptor the system makes for it, if any, and whether
      it connects. */
  datatype Candidate = Candidate(fd: int, connects: bool)

  predicate Succeeds(c: Candidate) {
    c.fd != INVALID_SOCKET && c.connects
  }

  /** candidates are the addresses found, if the name resolves at all. Each is given a descriptor
      that is not open; since an attempt that fails is closed before the next is made, that is one
      that was not open at the start. */
  method SocketConnect(os: System, resolved: bool, candidates: seq<Candidate>) returns (sock: int)
    requires INVALID_SOCKET !in os.open
    requires forall i :: 0 <= i < |candidates| ==>
               candidates[i].fd == INVALID_SOCKET || (0 <= candidates[i].fd && candidates[i].fd !in os.open)
    modifies os
    ensures sock == INVALID_SOCKET <==> !resolved || forall i :: 0 <= i < |candidates| ==> !Succeeds(candidates[i])
    ensures sock != INVALID_SOCKET ==>
              exists k :: 0 <= k < |candidates| && Succeeds(candidates[k]) && sock == candidates[k].fd
                          && forall i :: 0 <= i < k ==> !Succeeds(candidates[i])
    ensures os.open == if sock == INVALID_SOCKET then old(os.open) else old(os.open) + {sock}
  {
    if !resolved { return INVALID_SOCKET; }
    sock := INVALID_SOCKET;
    var info := 0;
    while info < |candidates|
      invariant 0 <= info <= |candidates| && os.open == old(os.open)
      invariant forall i :: 0 <= i < info ==> !Succeeds(candidates[i])
    {
      sock := os.Create(candidates[info].fd);
      if sock != INVALID_SOCKET {
        if candidates[info].connects { break; }
        os.Close(sock);
      }
      info := info + 1;
    }
    if info == |candidates| { return INVALID_SOCKET; }
  }
}
