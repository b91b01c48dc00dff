/** UsbDeviceRepository.kt: the open connection of each attached USB device,
    and the attach (0) / detach (1) events handed to the native side.

    `usbManager.openDevice` is a platform call: its result is a parameter,
    `None` standing for the null it returns when the device cannot be
    opened. The map stores what `openDevice` returned, null included,
    because Kotlin stores the platform value before dereferencing it. */
module UsbRepository {
  import opened Common

  /** A UsbDeviceConnection, known by its file descriptor. */
  datatype Connection = Connection(fd: int)

  /** One call of RPCS3.usbDeviceEvent(fd, event). */
  datatype UsbEvent = UsbEvent(fd: int, event: int)

  const AttachEvent: int := 0
  const DetachEvent: int := 1

  /** Whether `device` has a (non-null) connection in `devices`. */
  predicate IsOpen<D>(devices: map<D, Option<Connection>>, device: D) {
    device in devices && devices[device].Some?
  }

  class UsbDeviceRepository<Device(==)> {
    var devices: map<Device, Option<Connection>>
    /** The usbDeviceEvent calls made so far, in order. */
    var events: seq<UsbEvent>
    /** The connections closed so far, in order. */
    var closed: seq<Connection>

    constructor ()
      ensures devices == map[] && events == [] && closed == []
    {
      devices := map[];
      events := [];
      closed := [];
    }

    /** attach(device): a device that already has a connection is left alone
        (nothing opened, no event). Otherwise the result of openDevice is
        stored; a connection is announced with event 0, while a null one
        makes `connection.fileDescriptor` throw (`ok` false, no event). */
    method Attach(device: Device, connection: Option<Connection>) returns (ok: bool)
      modifies this
      ensures closed == old(closed)
      ensures IsOpen(old(devices), device) ==> ok && devices == old(devices) && events == old(events)
      ensures !IsOpen(old(devices), device) ==> devices == old(devices)[device := connection]
      ensures !IsOpen(old(devices), device) && connection.Some? ==>
        ok && events == old(events) + [UsbEvent(connection.value.fd, AttachEvent)]
      ensures !IsOpen(old(devices), device) && connection.None? ==> !ok && events == old(events)
    {
      if IsOpen(devices, device) {
        return true;
      }
      devices := devices[device := connection];
      if connection.None? {
        return false;
      }
      events := events + [UsbEvent(connection.value.fd, AttachEvent)];
      return true;
    }

    /** detach(device): a device with a connection announces event 1 with its
        descriptor, has the connection closed and leaves the map; any other
        device changes nothing. */
    method Detach(device: Device)
      modifies this
      ensures IsOpen(old(devices), device) ==>
        && events == old(events) + [UsbEvent(old(devices)[device].value.fd, DetachEvent)]
        && closed == old(closed) + [old(devices)[device].value]
        && devices == old(devices) - {device}
      ensures !IsOpen(old(devices), device) ==>
        devices == old(devices) && events == old(events) && closed == old(closed)
    {
      if IsOpen(devices, device) {
        var connection := devices[device].value;
        events := events + [UsbEvent(connection.fd, DetachEvent)];
        closed := closed + [connection];
        devices := devices - {device};
      }
    }
  }

  /** What Attach and then Detach of a device that was not in the map do to
      the map: it ends as it was, and no other key is touched on the way. */
  lemma AttachDetachRestores<D>(devices: map<D, Option<Connection>>, device: D, c: Connection)
    requires device !in devices
    ensures var attached := devices[device := Some(c)];
      && IsOpen(attached, device)
      && (forall d | d in devices :: d in attached && attached[d] == devices[d])
      && attached - {device} == devices
  {
    var attached := devices[device := Some(c)];
    assert (attached - {device}).Keys == devices.Keys;
  }
}
