/** Values shared by every module: optional values, fallible results and the
    error conditions the tool reports. */
module Common {

  datatype Option<+T> = None | Some(value: T)

  /** The errors the tool returns, one constructor per distinct error site. */
  datatype Error =
    | CommandFailed                        // the ethtool process exited non-zero or could not start
    | DriverNotFound(iface: string)        // no `driver:` line in `ethtool -i`
    | SpeedNotFound(iface: string)         // no usable `Speed:` line in `ethtool`
    | ReadDirFailed                        // /sys/class/net could not be listed
    | FileReadFailed                       // a sysfs attribute could not be read
    | SpeedUndetermined(iface: string)     // neither ethtool nor sysfs gave a speed
    | InvalidMaxValues(iface: string, rx: int, tx: int)
    | SetRingFailed(iface: string)         // the ring-size write was refused

  datatype Result<+T> = Ok(value: T) | Err(error: Error)
}
