/** The native list of USB file descriptors (g_android_usb_devices) that
    Java_net_rpcs3_RPCS3_usbDeviceEvent keeps: event 0 appends the
    descriptor, any other event erases its first occurrence. */
module UsbFdList {
  import opened Common

  /** The list after one event. */
  function ApplyEvent(fds: seq<int>, fd: int, event: int): seq<int> {
    if event == 0 then fds + [fd] else RemoveFirst(fds, fd)
  }

  /** Event 0 adds one copy of the descriptor at the end; any other event
      removes one copy if there is one, keeps the others in order, and
      leaves a list without the descriptor unchanged. */
  lemma ApplyEventSpec(fds: seq<int>, fd: int, event: int)
    ensures event == 0 ==> ApplyEvent(fds, fd, event) == fds + [fd]
    ensures event != 0 ==> multiset(ApplyEvent(fds, fd, event)) == multiset(fds) - multiset{fd}
    ensures event != 0 ==> IsSubsequence(ApplyEvent(fds, fd, event), fds)
    ensures event != 0 && fd !in fds ==> ApplyEvent(fds, fd, event) == fds
  {
    RemoveFirstSpec(fds, fd);
  }

  /** An attach followed by a detach of the same descriptor gives back the
      same descriptors, and exactly the same list when the descriptor was
      not listed before. */
  lemma AttachThenDetach(fds: seq<int>, fd: int)
    ensures multiset(ApplyEvent(ApplyEvent(fds, fd, 0), fd, 1)) == multiset(fds)
    ensures fd !in fds ==> ApplyEvent(ApplyEvent(fds, fd, 0), fd, 1) == fds
  {
    RemoveFirstSpec(fds + [fd], fd);
    if fd !in fds {
      assert forall k | 0 <= k < |fds| :: (fds + [fd])[k] != fd;
      assert FirstIndex(fds + [fd], fd) == |fds|;
      assert (fds + [fd])[..|fds|] == fds;
    }
  }

  class UsbFds {
    var fds: seq<int>

    constructor ()
      ensures fds == []
    {
      fds := [];
    }

    /** std::ranges::find: the index of the first equal descriptor, or the
        length of the list. */
    method Find(fd: int) returns (i: nat)
      ensures i <= |fds|
      ensures i < |fds| ==> fds[i] == fd
      ensures forall k | 0 <= k < i :: fds[k] != fd
    {
      i := 0;
      while i < |fds| && fds[i] != fd
        invariant i <= |fds|
        invariant forall k | 0 <= k < i :: fds[k] != fd
      {
        i := i + 1;
      }
    }

    /** The list update of usbDeviceEvent(fd, event). */
    method DeviceEvent(fd: int, event: int)
      modifies this
      ensures fds == ApplyEvent(old(fds), fd, event)
    {
      if event == 0 {
        fds := fds + [fd];
      } else {
        var i := Find(fd);
        if i < |fds| {
          fds := fds[..i] + fds[i + 1..];
        }
      }
    }
  }
}
