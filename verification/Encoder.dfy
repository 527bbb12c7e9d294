/** The two `encode` overloads of simple_resp::encoder. */
module Encoder {
  import opened Text

  datatype RespType = SimpleStrings | Errors | Integers | BulkStrings | BulkNil | Arrays

  datatype TypedValue = TypedValue(ty: RespType, value: Bytes)

  function BulkWire(value: Bytes): Bytes {
    ['$'] + Decimal(|value|) + CRLF + value + CRLF
  }

  /** One value; an integer is written as a bulk string, and an array inside a
      list is not written at all. */
  function ScalarWire(v: TypedValue): Bytes {
    match v.ty
    case SimpleStrings => ['+'] + v.value + CRLF
    case Errors => ['-'] + v.value + CRLF
    case Integers => BulkWire(v.value)
    case BulkStrings => BulkWire(v.value)
    case BulkNil => ['$', '-', '1'] + CRLF
    case Arrays => []
  }

  function ItemsWire(list: seq<TypedValue>): Bytes {
    if list == [] then [] else ScalarWire(list[0]) + ItemsWire(list[1..])
  }

  function ListWire(list: seq<TypedValue>): Bytes {
    ['*'] + Decimal(|list|) + CRLF + ItemsWire(list)
  }

  function Bulks(args: seq<Bytes>): (list: seq<TypedValue>)
    ensures |list| == |args|
    ensures forall i | 0 <= i < |args| :: list[i] == TypedValue(BulkStrings, args[i])
  {
    if args == [] then [] else [TypedValue(BulkStrings, args[0])] + Bulks(args[1..])
  }

  method EncodeList(list: seq<TypedValue>) returns (response: Bytes)
    ensures response == ListWire(list)
  {
    response := ['*'] + Decimal(|list|) + CRLF;
    for k := 0 to |list|
      invariant response + ItemsWire(list[k..]) == ListWire(list)
    {
      ghost var before, rest := response, ItemsWire(list[k + 1..]);
      Split(list, k);
      var value := list[k].value;
      match list[k].ty {
        case SimpleStrings => response := response + (['+'] + value + CRLF);
        case Errors => response := response + (['-'] + value + CRLF);
        case Integers => response := response + (['$'] + Decimal(|value|) + CRLF + value + CRLF);
        case BulkStrings => response := response + (['$'] + Decimal(|value|) + CRLF + value + CRLF);
        case BulkNil => response := response + (['$', '-', '1'] + CRLF);
        case Arrays =>
      }
      assert response == before + ScalarWire(list[k]);
      Assoc(before, ScalarWire(list[k]), rest);
    }
  }

  /** The other overload reads `args[0]` except for arrays and nil.  On arrays it
      agrees with `EncodeList` on bulk strings. */
  method Encode(ty: RespType, args: seq<Bytes>) returns (response: Bytes)
    requires ty == Arrays || ty == BulkNil || args != []
    ensures response ==
      if ty == Arrays then ListWire(Bulks(args))
      else ScalarWire(TypedValue(ty, if ty == BulkNil then [] else args[0]))
  {
    match ty {
      case SimpleStrings => response := ['+'] + args[0] + CRLF;
      case Errors => response := ['-'] + args[0] + CRLF;
      case Integers => response := ['$'] + Decimal(|args[0]|) + CRLF + args[0] + CRLF;
      case BulkStrings => response := ['$'] + Decimal(|args[0]|) + CRLF + args[0] + CRLF;
      case BulkNil => response := ['$', '-', '1'] + CRLF;
      case Arrays =>
        ghost var list := Bulks(args);
        response := ['*'] + Decimal(|args|) + CRLF;
        for k := 0 to |args|
          invariant response + ItemsWire(list[k..]) == ListWire(list)
        {
          Split(list, k);
          Assoc(response, BulkWire(args[k]), ItemsWire(list[k + 1..]));
          response := response + (['$'] + Decimal(|args[k]|) + CRLF + args[k] + CRLF);
        }
    }
  }
}
