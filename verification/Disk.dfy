/** What can happen to the creation of one file. */
module Disk {
  import opened Prelude

  /** It cannot be opened, it stops after some bytes (or before the sync), or it is
      complete. */
  datatype Fate = OpenFails | Torn(written: nat) | Done

  /** The bytes that land in a file that was opened. */
  function Landed(bytes: Bytes, fate: Fate): Bytes {
    if fate.Torn? then bytes[..Min(fate.written, |bytes|)] else bytes
  }
}
