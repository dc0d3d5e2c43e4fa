/** Packet type codes, flag constants and the size class of each type (types.go). */
module PackageTypes {
  import opened Bytes

  const HI: byte := 2
  const HELLO: byte := 3
  const BYE_BYE: byte := 4
  const HEARTBEAT: byte := 20
  const AWAKE: byte := 21
  const HIDE_MOUSE: byte := 50
  const HEARTBEAT_EX: byte := 51
  const HEARTBEAT_EX_L2: byte := 52
  const HEARTBEAT_EX_L3: byte := 53
  const CLIPBOARD: byte := 69
  const CLIPBOARD_DATA_END: byte := 76
  const MACHINE_SWITCHED: byte := 77
  const CLIPBOARD_ASK: byte := 78
  const CLIPBOARD_PUSH: byte := 79
  const NEXT_MACHINE: byte := 121
  const KEYBOARD: byte := 122
  const MOUSE: byte := 123
  const CLIPBOARD_TEXT: byte := 124
  const CLIPBOARD_IMAGE: byte := 125
  const HANDSHAKE: byte := 126
  const HANDSHAKE_ACK: byte := 127
  const MATRIX: byte := 128
  const INVALID: byte := 255

  const PACKET_SIZE := 32
  const PACKET_SIZE_EX := 64

  const WM_MOUSEMOVE: int32 := 0x0200
  const WM_LBUTTONDOWN: int32 := 0x0201
  const WM_LBUTTONUP: int32 := 0x0202
  const WM_RBUTTONDOWN: int32 := 0x0204
  const WM_RBUTTONUP: int32 := 0x0205
  const WM_MBUTTONDOWN: int32 := 0x0207
  const WM_MBUTTONUP: int32 := 0x0208
  const WM_MOUSEWHEEL: int32 := 0x020A
  const WM_XBUTTONDOWN: int32 := 0x020B
  const WM_XBUTTONUP: int32 := 0x020C
  const WM_MOUSEHWHEEL: int32 := 0x020E

  const ID_ALL: uint32 := 255

  /** Types sent in the 64-byte extended format; bit 128 marks the matrix family. */
  predicate IsBigPacket(kind: byte) {
    || kind in {HELLO, AWAKE, HEARTBEAT, HEARTBEAT_EX, HANDSHAKE, HANDSHAKE_ACK,
                CLIPBOARD_PUSH, CLIPBOARD, CLIPBOARD_ASK,
                CLIPBOARD_IMAGE, CLIPBOARD_TEXT, CLIPBOARD_DATA_END}
    || kind >= MATRIX
  }

  predicate HasMouse(kind: byte) {
    kind in {MOUSE, NEXT_MACHINE, HIDE_MOUSE}
  }

  predicate HasHandshake(kind: byte) {
    kind in {HANDSHAKE, HANDSHAKE_ACK}
  }

  predicate HasClipboard(kind: byte) {
    kind in {CLIPBOARD_TEXT, CLIPBOARD_IMAGE, CLIPBOARD_DATA_END, CLIPBOARD, CLIPBOARD_ASK, CLIPBOARD_PUSH}
  }

  /** Does some payload field of the packet struct carry bytes 16-31 for this type? */
  predicate HasPayload(kind: byte) {
    HasMouse(kind) || kind == KEYBOARD || HasHandshake(kind) || HasClipboard(kind)
  }

  function WireSize(kind: byte): nat {
    if IsBigPacket(kind) then PACKET_SIZE_EX else PACKET_SIZE
  }
}
