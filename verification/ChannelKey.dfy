/** The text key under which bound channels are told apart: name, underscore, type. */
module ChannelKey {
  import opened Decimals

  datatype Channel = Channel(name: string, kind: int)

  function Key(ch: Channel): string {
    ch.name + "_" + Itoa(ch.kind)
  }

  /** The last underscore splits a key. */
  lemma LastUnderscore(s: string, t: string, s': string, t': string)
    requires s + "_" + t == s' + "_" + t' && '_' !in t && '_' !in t'
    ensures s == s' && t == t'
  {
    var whole := s + "_" + t;
    assert |s| + |t| == |s'| + |t'|;
    assert whole[|s|] == '_' && whole[|s'|] == '_';
    assert s == whole[..|s|] && t == whole[|s| + 1..];
    assert s' == whole[..|s'|] && t' == whole[|s'| + 1..];
  }

  /** Different channels have different keys. */
  lemma KeyInjective(a: Channel, b: Channel)
    requires Key(a) == Key(b)
    ensures a == b
  {
    ItoaReadBack(a.kind);
    ItoaReadBack(b.kind);
    LastUnderscore(a.name, Itoa(a.kind), b.name, Itoa(b.kind));
  }
}
