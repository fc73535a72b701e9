/** What a decompressor without overrun tests can return: it only looks where it has stopped. */
module ReturnCodes {

  datatype EndCode = Ok | InputNotConsumed | InputOverrun

  function AtEnd(ip: nat, len: nat): (r: EndCode)
    ensures (r == Ok <==> ip == len) && (r == InputNotConsumed <==> ip < len) && (r == InputOverrun <==> len < ip)
  {
    if ip == len then Ok else if ip < len then InputNotConsumed else InputOverrun
  }
}
