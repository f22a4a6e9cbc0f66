/** The table of control-character names printed next to a C0 offense. */
module ControlNames {
  import opened Bytes

  /** What the table answers for a byte that is not a C0 control. */
  const NotAControl: string := "not a c0 control"

  /** The name of a byte, total on 0..255. The spellings are the source's,
      including the missing space in "Synchronous Idle(SYN)". */
  function Xlat(ch: Byte): (name: string)
    ensures IsControl(ch) <==> name != NotAControl
    ensures |name| > 0
  {
    match ch
    case 0 => "Null (NUL)"
    case 1 => "Start of Heading (SOH)"
    case 2 => "Start of Text (STX)"
    case 3 => "End of Text (ETX)"
    case 4 => "End of Transmission (EOT)"
    case 5 => "Enquiry (ENQ)"
    case 6 => "Acknowledge (ACK)"
    case 7 => "Bell (BEL)"
    case 8 => "Backspace (BS)"
    case 9 => "Horizontal Tabulation (HT)"
    case 10 => "Line Feed (LF)"
    case 11 => "Vertical Tabulation (VT)"
    case 12 => "Form Feed (FF)"
    case 13 => "Carriage Return (CR)"
    case 14 => "Shift Out (SO)"
    case 15 => "Shift In (SI)"
    case 16 => "Data Link Escape (DLE)"
    case 17 => "Device Control 1 (DC1)"
    case 18 => "Device Control 2 (DC2)"
    case 19 => "Device Control 3 (DC3)"
    case 20 => "Device Control 4 (DC4)"
    case 21 => "Negative Acknowledge (NAK)"
    case 22 => "Synchronous Idle(SYN)"
    case 23 => "End of Transmission Block (ETB)"
    case 24 => "Cancel (CAN)"
    case 25 => "End of Medium (EM)"
    case 26 => "Substitute (SUB)"
    case 27 => "Escape (ESC)"
    case 28 => "File Separator (FS)"
    case 29 => "Group Separator (GS)"
    case 30 => "Record Separator (RS)"
    case 31 => "Unit Separator (US)"
    case 127 => "Delete (DEL)"
    case _ => NotAControl
  }
}
