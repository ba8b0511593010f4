/** What the parser lets through, for every input: trees that the serializer's text brings back. */
module JsonNormal {
  import opened Bytes
  import opened JsonValues
  import opened JsonGrammar
  import opened JsonAccepts
  import opened JsonRoundTrip

  ghost predicate Sound(v: Json, nesting: nat) {
    Distinct(v) && Fits(v, nesting)
  }

  ghost predicate SoundMembers(ms: seq<Member>, nesting: nat) {
    DistinctNames(ms) && forall i :: 0 <= i < |ms| ==> Sound(ms[i].value, nesting)
  }

  /** A parsed value names no member twice in an object and nests within the limit. */
  lemma {:induction false} ParsedIsSound(s: seq<cbyte>, nesting: nat)
    ensures ParseValue(s, nesting).Ok? ==> Sound(ParseValue(s, nesting).value, nesting)
    decreases |s|, 1
  {
    hide ParseItems, ParseMembers, Quoted, ParseNumber, ParseBoolean, ParseToken, SkipSpace;
    if nesting <= MAX_NESTING {
      var t := SkipSpace(s);
      if At(t, 0) == LBRACE {
        var u := SkipSpace(t[1..]);
        MembersAreSound(u, nesting + 1, []);
        assert ParseObject(t, nesting + 1).Ok? ==> Sound(ParseObject(t, nesting + 1).value, nesting);
      } else if At(t, 0) == LBRACKET {
        var u := SkipSpace(t[1..]);
        ItemsAreSound(u, nesting + 1, []);
        assert ParseArray(t, nesting + 1).Ok? ==> Sound(ParseArray(t, nesting + 1).value, nesting);
      } else {
        ScalarIsSound(s, nesting);
      }
    }
  }

  lemma ScalarIsSound(s: seq<cbyte>, nesting: nat)
    requires At(SkipSpace(s), 0) != LBRACE && At(SkipSpace(s), 0) != LBRACKET
    ensures ParseValue(s, nesting).Ok? ==> Sound(ParseValue(s, nesting).value, nesting)
  {
    hide Quoted, SkipSpace, FloatLength, IsHexLiteral, IntegerValue;
  }

  lemma {:induction false} ItemsAreSound(u: seq<cbyte>, nesting: nat, acc: seq<Json>)
    requires forall i :: 0 <= i < |acc| ==> Sound(acc[i], nesting)
    ensures var r := ParseItems(u, nesting, acc);
            r.Ok? ==> r.value.Arr? && forall i :: 0 <= i < |r.value.items| ==> Sound(r.value.items[i], nesting)
    decreases |u|, 2
  {
    hide ParseValue, SkipSpace, Sound;
    if u != [] {
      ParsedIsSound(u, nesting);
      match ParseValue(u, nesting)
      case Fail =>
      case Ok(v, rest) =>
        var w := SkipSpace(rest);
        if At(w, 0) == COMMA {
          ItemsAreSound(SkipSpace(w[1..]), nesting, acc + [v]);
        }
    }
  }

  lemma {:induction false} MembersAreSound(u: seq<cbyte>, nesting: nat, acc: seq<Member>)
    requires SoundMembers(acc, nesting)
    ensures var r := ParseMembers(u, nesting, acc); r.Ok? ==> r.value.Obj? && SoundMembers(r.value.members, nesting)
    decreases |u|, 2
  {
    hide ParseValue, SkipSpace, Sound, Quoted;
    if u != [] {
      match Quoted(u)
      case Fail =>
      case Ok(name, afterName) =>
        var c := SkipSpace(afterName);
        if At(c, 0) == COLON {
          ParsedIsSound(c[1..], nesting);
          match ParseValue(c[1..], nesting)
          case Fail =>
          case Ok(v, rest) =>
            var w := SkipSpace(rest);
            if !HasName(acc, name) {
              assert SoundMembers(acc + [Member(name, v)], nesting);
              if At(w, 0) == COMMA {
                MembersAreSound(SkipSpace(w[1..]), nesting, acc + [Member(name, v)]);
              }
            }
        }
    }
  }

  /** Serializing whatever was parsed, from any text at all, and parsing again changes nothing. */
  lemma ReserializedParses(s: seq<cbyte>, pretty: bool)
    requires ParseText(s).Some? && NoDoubles(ParseText(s).value)
    ensures ParseText(Text(ParseText(s).value, 0, pretty)) == ParseText(s)
  {
    hide ParseValue;
    var t := if At(s, 0) == 0xEF && At(s, 1) == 0xBB && At(s, 2) == 0xBF then s[3..] else s;
    ParsedIsSound(t, 0);
    var v := ParseText(s).value;
    FitsByHeight(v, 0);
    RoundTrip(v, pretty);
  }
}
