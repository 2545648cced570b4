/** Addresses: a prefix digit, then the protected text of 32 bytes. */
module Address {
  import opened Words
  import opened Base32

  const ADDRESS_LEN := 57
  const PREFIX_MAX := 3

  /** A destination: its kind and its 32 bytes. */
  datatype Destination = Destination(prefix: nat, data: seq<bv8>)

  ghost predicate Sound(d: Destination) { d.prefix < 256 && |d.data| == 32 }

  /** The character the prefix is shown as: a byte, added to '0' with wrap-around. */
  function PrefixChar(prefix: nat): char
    requires prefix < 256
  {
    ((48 + prefix) % 256) as char
  }

  ghost function Shown(d: Destination): string
    requires Sound(d)
  {
    [PrefixChar(d.prefix)] + Encoded(d.data)
  }

  ghost function Parsed(s: string): Option<Destination> {
    if |s| != ADDRESS_LEN || s[0] < '0' || s[0] >= '3' then None
    else
      var data := DecodedWord(s[1..]);
      if data.None? then None else Some(Destination(s[0] as int - 48, data.value))
  }

  class CMvAddress {
    var prefix: nat
    var data: seq<bv8>

    ghost predicate Valid()
      reads this
    {
      Sound(Dest())
    }

    ghost function Dest(): Destination
      reads this
    {
      Destination(prefix, data)
    }

    constructor (prefix: nat, data: seq<bv8>)
      requires Sound(Destination(prefix, data))
      ensures Valid() && Dest() == Destination(prefix, data)
    {
      this.prefix, this.data := prefix, data;
    }

    /** Takes the address of the string if there is one, and changes nothing otherwise. */
    method ParseString(strAddress: string) returns (ok: bool)
      requires Valid()
      modifies this
      ensures Valid() && ok == Parsed(strAddress).Some?
      ensures Dest() == if ok then Parsed(strAddress).value else old(Dest())
    {
      hide DecodedWord;
      if |strAddress| != ADDRESS_LEN || strAddress[0] < '0' || strAddress[0] >= ('0' as int + PREFIX_MAX) as char {
        return false;
      }
      var md32 := Base32Decode(strAddress[1..]);
      if md32.None? {
        return false;
      }
      WordLength(strAddress[1..]);
      data := md32.value;
      prefix := strAddress[0] as int - '0' as int;
      return true;
    }

    method ToString() returns (s: string)
      requires Valid()
      ensures s == Shown(Dest())
    {
      hide Encoded;
      var text := Base32Encode(data);
      s := [PrefixChar(prefix)] + text;
    }
  }

  lemma WordLength(s: string)
    requires DecodedWord(s).Some?
    ensures |DecodedWord(s).value| == 32
  {
  }

  /** An address reads back from its own string exactly when its prefix is a known one. */
  lemma ParseShown(d: Destination)
    requires Sound(d)
    ensures Parsed(Shown(d)) == Some(d) <==> d.prefix < PREFIX_MAX
  {
    hide Encoded, DecodedWord;
    EncodedIs56(d.data);
    EncodeDecodes(d.data);
    assert Shown(d)[1..] == Encoded(d.data);
  }

  lemma EncodedIs56(m: seq<bv8>)
    requires |m| == 32
    ensures |Encoded(m)| == 56
  {
    EncodedLength(m);
  }

  /** A string that reads as an address is that address's own string, up to the letters used. */
  lemma ShowParsed(s: string)
    requires Parsed(s).Some?
    ensures Sound(Parsed(s).value) && Shown(Parsed(s).value) == [s[0]] + Normal(s[1..])
  {
    hide Encoded, DecodedWord;
    WordLength(s[1..]);
    DecodeEncodes(s[1..]);
  }

  /** Replacing one character behind the prefix is refused exactly when its value changes. */
  lemma OneCharacterRefused(s: string, p: nat, c: char)
    requires Parsed(s).Some? && 0 < p < |s|
    ensures Parsed(s[p := c]).Some? <==> Value(c) == Value(s[p])
    ensures Value(c) == Value(s[p]) ==> Parsed(s[p := c]) == Parsed(s)
  {
    hide DecodedWord, Value;
    OneCharacter(s[1..], p - 1, c);
    assert s[p := c][1..] == s[1..][p - 1 := c];
  }

  /** The prefix is not protected: any known one in its place is accepted with the same bytes. */
  lemma PrefixUnprotected(s: string, c: char)
    requires Parsed(s).Some?
    ensures Parsed(s[0 := c]).Some? <==> '0' <= c < '3'
    ensures '0' <= c < '3' ==> Parsed(s[0 := c]) == Some(Destination(c as int - 48, Parsed(s).value.data))
  {
    hide DecodedWord;
    assert s[0 := c][1..] == s[1..];
  }
}
