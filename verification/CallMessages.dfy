/** Requests and replies begin alike: an archive header, the name of the function, then the rest. */
module CallMessages {
  import opened Common
  import opened RpcBasic
  import opened Serializer

  /** The numbers behind the return codes. */
  const SUCCESS_CODE: Byte := 0
  const NOT_FOUND_CODE: Byte := 1

  /** Written on a machine with this byte order. */
  function Message(order: Order, name: Name, rest: Bytes): Bytes {
    [Flag(order)] + Encode(order, Str(name)) + rest
  }

  function EncodeRequest(order: Order, name: Name, args: seq<Value>): Bytes {
    Message(order, name, EncodeAll(order, args))
  }

  /** A message after its name has been read, and the order its numbers are in. */
  datatype Opened = Opened(order: Order, name: Name, rest: Bytes)

  /** Deserializing a name alone, on a machine with this byte order; `None` is an exception. */
  function ReadName(machine: Order, data: Bytes): Option<Opened> {
    if data == [] then None
    else
      var order := ReadOrder(machine, data[0]);
      match Decode(order, TString, data[1..])
      case None => None
      case Some((v, rest)) => if v.Str? && |v.s| < LENGTH_LIMIT then Some(Opened(order, v.s, rest)) else None
  }

  /** A name is read back on any machine, whatever wrote it. */
  lemma NameRoundTrip(machine: Order, order: Order, name: Name, rest: Bytes)
    ensures ReadName(machine, Message(order, name, rest)) == Some(Opened(order, name, rest))
  {
    OrderIsKept(machine, order);
    assert Message(order, name, rest)[1..] == Encode(order, Str(name)) + rest;
    RoundTrip(order, TString, Str(name), rest);
  }

  /** The arguments behind a name are read back as they were sent. */
  lemma ArgumentsRoundTrip(machine: Order, order: Order, name: Name, params: seq<Type>, args: seq<Value>)
    requires HaveTypes(args, params)
    ensures ReadName(machine, EncodeRequest(order, name, args)) == Some(Opened(order, name, EncodeAll(order, args)))
    ensures DecodeFields(order, params, EncodeAll(order, args)) == Some((args, []))
  {
    NameRoundTrip(machine, order, name, EncodeAll(order, args));
    RoundTripFields(order, params, args, []);
    assert EncodeAll(order, args) + [] == EncodeAll(order, args);
  }
}
