/** The key-value record both containers store (Map/Model/Item.cs). */
module Items {

  /** A mutable pair: both properties have public setters, and the containers' `Update`
      replaces `Value` in place. */
  class Item<K, V> {
    var Key: K
    var Value: V

    constructor (key: K, value: V)
      ensures Key == key && Value == value
    {
      Key := key;
      Value := value;
    }

    /** `ToString()`: the key's text, a spaced dash, then the value's text. The texts of
        the key and the value are the parameters, standing for their own `ToString()`. */
    function ToString(keyText: K -> string, valueText: V -> string): (s: string)
      reads this
      ensures |s| == |keyText(Key)| + 3 + |valueText(Value)|
      ensures s[..|keyText(Key)|] == keyText(Key)
      ensures s[|keyText(Key)|..|keyText(Key)| + 3] == " - "
      ensures s[|keyText(Key)| + 3..] == valueText(Value)
    {
      keyText(Key) + " - " + valueText(Value)
    }
  }
}
