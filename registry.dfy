/**
 * The `device_info` record that `registry_global` fills in as the Wayland
 * registry announces globals (main.c and zzz_get.c carry the same handler).
 * Each pointer is modelled by whether it is set.
 */
module Registry {

  /** The interface a registry global announces. */
  datatype Interface = Seat | DataControlManager | OtherInterface

  /** Both globals the data-control device needs have been announced. */
  predicate BothBound(announced: seq<Interface>)
  {
    Seat in announced && DataControlManager in announced
  }

  class DeviceInfo {
    /** `seat`, `dcm` and `device` are not NULL. */
    var seat: bool
    var manager: bool
    var device: bool

    constructor ()
      ensures !seat && !manager && !device
    {
      seat, manager, device := false, false, false;
    }

    /**
     * registry_global: binds a seat or a data-control manager, then gets the
     * data device when there is none yet and both are bound. `created` says
     * whether this call got the device.
     */
    method RegistryGlobal(iface: Interface) returns (created: bool)
      modifies this
      ensures seat == (old(seat) || iface == Seat)
      ensures manager == (old(manager) || iface == DataControlManager)
      ensures created <==> !old(device) && seat && manager
      ensures device == (old(device) || created)
    {
      if iface == Seat {
        seat := true;
      } else if iface == DataControlManager {
        manager := true;
      }
      created := false;
      if !device && seat && manager {
        device := true;
        created := true;
      }
    }
  }
}
