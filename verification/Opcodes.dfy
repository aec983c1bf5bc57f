/** The opcodes of protocol revision 203. */
module Opcodes {
  import opened Bits

  const OP_SRV_PLAYER_MOVEMENT: Byte := 255

  /** init_opcodes_203, packets to the client: 0 for an opcode the revision does not have. */
  function OpcodeOut203(opcode: Byte): Byte {
    match opcode
    case 8 => 131
    case 9 => 4
    case 10 => 183
    case 23 => 71
    case 24 => 149
    case 26 => 109
    case 27 => 51
    case 28 => 120
    case 204 => 89
    case 206 => 36
    case 211 => 159
    case 212 => 123
    case 213 => 90
    case 217 => 20
    case 220 => 33
    case 221 => 203
    case 222 => 42
    case 226 => 5
    case 227 => 206
    case 228 => 240
    case 233 => 137
    case 234 => 101
    case 235 => 162
    case 236 => 97
    case 237 => 128
    case 238 => 92
    case 239 => 59
    case 241 => 83
    case 242 => 153
    case 243 => 156
    case 244 => 25
    case 245 => 252
    case 246 => 245
    case 247 => 104
    case 248 => 79
    case 249 => 91
    case 250 => 234
    case 252 => 53
    case 253 => 48
    case 254 => 99
    case 255 => 191
    case _ => 0
  }

  /** How a client of the revision reads them. */
  function OpcodeOfClient(code: Byte): Byte {
    match code
    case 4 => 9
    case 5 => 226
    case 20 => 217
    case 25 => 244
    case 33 => 220
    case 36 => 206
    case 42 => 222
    case 48 => 253
    case 51 => 27
    case 53 => 252
    case 59 => 239
    case 71 => 23
    case 79 => 248
    case 83 => 241
    case 89 => 204
    case 90 => 213
    case 91 => 249
    case 92 => 238
    case 97 => 236
    case 99 => 254
    case 101 => 234
    case 104 => 247
    case 109 => 26
    case 120 => 28
    case 123 => 212
    case 128 => 237
    case 131 => 8
    case 137 => 233
    case 149 => 24
    case 153 => 242
    case 156 => 243
    case 159 => 211
    case 162 => 235
    case 183 => 10
    case 191 => 255
    case 203 => 221
    case 206 => 227
    case 234 => 250
    case 240 => 228
    case 245 => 246
    case 252 => 245
    case _ => 0
  }

  /** No two opcodes share a code. */
  lemma OpcodeRoundTrip(opcode: Byte)
    ensures OpcodeOut203(opcode) != 0 ==> OpcodeOfClient(OpcodeOut203(opcode)) == opcode
  {
  }

  /** The whole table, as the server holds it. */
  function Table203(): (t: seq<Byte>)
    ensures |t| == 256 && forall i :: 0 <= i < 256 ==> t[i] == OpcodeOut203(i)
  {
    seq(256, i requires 0 <= i < 256 => OpcodeOut203(i))
  }

  /** Movement packets can be sent, and a client tells them from all others. */
  predicate TellsMovement(opcodesOut: seq<Byte>)
    requires |opcodesOut| == 256
  {
    && opcodesOut[OP_SRV_PLAYER_MOVEMENT] != 0
    && forall o: Byte :: opcodesOut[o] == opcodesOut[OP_SRV_PLAYER_MOVEMENT] ==> o == OP_SRV_PLAYER_MOVEMENT
  }

  lemma Table203TellsMovement()
    ensures TellsMovement(Table203())
  {
    forall o: Byte | Table203()[o] == Table203()[OP_SRV_PLAYER_MOVEMENT] ensures o == OP_SRV_PLAYER_MOVEMENT {
      OpcodeRoundTrip(o);
      OpcodeRoundTrip(OP_SRV_PLAYER_MOVEMENT);
    }
  }
}
