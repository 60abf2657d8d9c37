/** The return codes, action codes and field sizes of server.h. */
module Codes {
  import opened Bytes

  const OP_SUCCESS: Byte := 1
  const OP_SESSION_ERROR: Byte := 2
  const OP_PERMISSION_ERROR: Byte := 3
  const OP_USER_EXISTS: Byte := 4
  const OP_FILE_EXISTS: Byte := 5
  const OP_CRED_RULE_ERROR: Byte := 6
  const OP_USER_AUTH: Byte := 7
  const OP_DIR_NOT_EMPTY: Byte := 8
  const OP_RESOLVE_ERROR: Byte := 9
  const OP_PATH_NOT_DIR: Byte := 10
  const OP_PATH_NOT_FILE: Byte := 11
  const OP_DIR_EXISTS: Byte := 12
  const OP_SOCK_CLOSED: Byte := 13
  const OP_USER_NO_EXIST: Byte := 14
  const OP_FILE_EMPTY: Byte := 15
  const OP_DIR_EMPTY: Byte := 16
  const OP_IO_ERROR: Byte := 254
  const OP_FAILURE: Byte := 255

  const ACT_USER_OPERATION: Byte := 1
  const ACT_DELETE_REMOTE_FILE: Byte := 2
  const ACT_LIST_REMOTE_DIRECTORY: Byte := 3
  const ACT_GET_REMOTE_FILE: Byte := 4
  const ACT_MAKE_REMOTE_DIRECTORY: Byte := 5
  const ACT_PUT_REMOTE_FILE: Byte := 6
  const ACT_LOCAL_OPERATION: Byte := 7

  const USR_ACT_CREATE_USER: Byte := 10
  const USR_ACT_DELETE_USER: Byte := 20

  const MAX_MSG_SIZE := 2048
  const MAX_FILE_SIZE := 1016

  /** The length of the text get_err_msg has for a code. */
  function MessageLength(code: Byte): (n: nat)
    ensures 0 < n < 0x100
  {
    match code
    case 1 => 28
    case 2 => 42
    case 3 => 91
    case 4 => 51
    case 5 => 51
    case 6 => 93
    case 7 => 40
    case 8 => 37
    case 9 => 137
    case 10 => 39
    case 11 => 42
    case 12 => 56
    case 13 => 58
    case 14 => 51
    case 15 => 37
    case 16 => 42
    case 254 => 126
    case _ => 20
  }

  /** Message texts of these lengths; nothing else about them matters. */
  type Messages = m: Byte -> Text | forall code: Byte :: |m(code)| == MessageLength(code)
    witness (code: Byte) => seq(MessageLength(code), i => SPACE)
}
