/** Character escaping by a table of entities, as the renderers do it with a
    chain of global `replace` calls: the chain, the character-by-character
    encoding it amounts to, and the decoding that undoes it. */
module Entities {
  import opened Wrappers
  import opened Chars

  /** One `text.replace(/ch/g, text)` of a chain. */
  datatype Entity = Entity(ch: char, text: string)

  /** The replacements applied one after another over the whole text. */
  function ReplaceChain(s: string, table: seq<Entity>): string
    decreases |table|
  {
    if table == [] then s
    else
      var last := table[|table| - 1];
      ReplaceAllChar(ReplaceChain(s, table[..|table| - 1]), last.ch, last.text)
  }

  /** What the table writes for one character: the first entity for it, or
      the character itself. */
  function EntityFor(table: seq<Entity>, c: char): string {
    if table == [] then [c]
    else if table[0].ch == c then table[0].text
    else EntityFor(table[1..], c)
  }

  predicate HasEntity(table: seq<Entity>, c: char) {
    exists i | 0 <= i < |table| :: table[i].ch == c
  }

  /** Each character replaced by its entity, once. */
  function Encode(table: seq<Entity>, s: string): string {
    if s == [] then "" else EntityFor(table, s[0]) + Encode(table, s[1..])
  }

  lemma {:induction false} EncodeAppend(table: seq<Entity>, a: string, b: string)
    ensures Encode(table, a + b) == Encode(table, a) + Encode(table, b)
  {
    if a == [] {
      assert a + b == b;
    } else {
      assert (a + b)[1..] == a[1..] + b;
      EncodeAppend(table, a[1..], b);
    }
  }

  /** A replacement later in the chain never touches what an earlier one
      wrote, nor a character an earlier one already handled. */
  predicate ChainSafe(table: seq<Entity>) {
    forall i, j | 0 <= i < j < |table| :: table[j].ch !in table[i].text && table[j].ch != table[i].ch
  }

  /** The characters entity texts are written with. */
  predicate EntityChar(c: char) {
    c == '&' || c == '#' || c == ';' || 'a' <= c <= 'z' || 'A' <= c <= 'Z' || '0' <= c <= '9'
  }

  /** Every text of the table is written with entity characters only. */
  predicate PlainTexts(table: seq<Entity>) {
    forall i, k | 0 <= i < |table| && 0 <= k < |table[i].text| :: EntityChar(table[i].text[k])
  }

  /** A character that is not an entity character is in no text of such a table. */
  lemma AbsentFromTexts(table: seq<Entity>, c: char)
    requires PlainTexts(table) && !EntityChar(c)
    ensures forall i | 0 <= i < |table| :: c !in table[i].text
  {
    forall i | 0 <= i < |table|
      ensures c !in table[i].text
    {
      assert forall k | 0 <= k < |table[i].text| :: table[i].text[k] != c;
    }
  }

  /** A table whose texts are plain entity text, whose characters are
      distinct, and whose characters after the first are not entity
      characters, is a safe chain. */
  lemma ChainSafeFromPlain(table: seq<Entity>)
    requires PlainTexts(table)
    requires forall j | 1 <= j < |table| :: !EntityChar(table[j].ch)
    requires forall i, j | 0 <= i < j < |table| :: table[i].ch != table[j].ch
    ensures ChainSafe(table)
  {
    forall i, j | 0 <= i < j < |table|
      ensures table[j].ch !in table[i].text
    {
      AbsentFromTexts(table, table[j].ch);
    }
  }

  lemma {:induction false} EntityForAppend(table: seq<Entity>, e: Entity, c: char)
    ensures EntityFor(table + [e], c) ==
      (if HasEntity(table, c) then EntityFor(table, c) else if c == e.ch then e.text else [c])
  {
    if table == [] {
    } else {
      assert (table + [e])[1..] == table[1..] + [e];
      EntityForAppend(table[1..], e, c);
      if table[0].ch != c {
        assert HasEntity(table, c) <==> HasEntity(table[1..], c) by {
          if HasEntity(table, c) {
            var i :| 0 <= i < |table| && table[i].ch == c;
            assert table[1..][i - 1].ch == c;
          }
          if HasEntity(table[1..], c) {
            var i :| 0 <= i < |table| - 1 && table[1..][i].ch == c;
            assert table[i + 1].ch == c;
          }
        }
      }
    }
  }

  /** The entity a table writes for a character is one of its texts. */
  lemma {:induction false} EntityForIsText(table: seq<Entity>, c: char)
    requires HasEntity(table, c)
    ensures exists i | 0 <= i < |table| :: table[i].ch == c && EntityFor(table, c) == table[i].text
  {
    if table[0].ch != c {
      var i :| 0 <= i < |table| && table[i].ch == c;
      assert table[1..][i - 1].ch == c;
      EntityForIsText(table[1..], c);
      var k :| 0 <= k < |table| - 1 && table[1..][k].ch == c && EntityFor(table[1..], c) == table[1..][k].text;
      assert table[k + 1] == table[1..][k];
    }
  }

  /** One more replacement on an encoded text encodes with one more entity. */
  lemma {:induction false} ReplaceEncoded(table: seq<Entity>, e: Entity, s: string)
    requires forall i | 0 <= i < |table| :: e.ch !in table[i].text && e.ch != table[i].ch
    ensures ReplaceAllChar(Encode(table, s), e.ch, e.text) == Encode(table + [e], s)
  {
    if s != [] {
      var c := s[0];
      ReplaceAllCharAppend(EntityFor(table, c), Encode(table, s[1..]), e.ch, e.text);
      ReplaceEncoded(table, e, s[1..]);
      EntityForAppend(table, e, c);
      if HasEntity(table, c) {
        EntityForIsText(table, c);
        ReplaceAllCharAbsent(EntityFor(table, c), e.ch, e.text);
      } else {
        assert EntityFor(table, c) == [c] by {
          EntityForAbsent(table, c);
        }
      }
    }
  }

  lemma {:induction false} EntityForAbsent(table: seq<Entity>, c: char)
    requires !HasEntity(table, c)
    ensures EntityFor(table, c) == [c]
  {
    if table != [] {
      assert table[0].ch != c;
      assert !HasEntity(table[1..], c) by {
        forall i | 0 <= i < |table| - 1
          ensures table[1..][i].ch != c
        {
          assert table[1..][i] == table[i + 1];
        }
      }
      EntityForAbsent(table[1..], c);
    }
  }

  /** A safe chain of global replacements escapes each character exactly
      once: what one replacement writes is never rewritten by a later one. */
  lemma {:induction false} ChainIsEncode(table: seq<Entity>, s: string)
    requires ChainSafe(table)
    ensures ReplaceChain(s, table) == Encode(table, s)
    decreases |table|
  {
    if table == [] {
      EncodeEmptyTable(s);
    } else {
      var init := table[..|table| - 1];
      var last := table[|table| - 1];
      assert ChainSafe(init);
      ChainIsEncode(init, s);
      assert init + [last] == table;
      ReplaceEncoded(init, last, s);
    }
  }

  lemma {:induction false} EncodeEmptyTable(s: string)
    ensures Encode([], s) == s
  {
    if s != [] {
      EncodeEmptyTable(s[1..]);
    }
  }

  /** The first entity whose text starts `t`. */
  function MatchEntity(table: seq<Entity>, t: string): (r: Option<Entity>)
    ensures r.Some? ==> r.value in table && IsPrefix(r.value.text, t)
  {
    if table == [] then None
    else if IsPrefix(table[0].text, t) then Some(table[0])
    else MatchEntity(table[1..], t)
  }

  /** Entities turned back into their characters, left to right. */
  function Decode(table: seq<Entity>, t: string): string
    requires forall i | 0 <= i < |table| :: |table[i].text| > 0
    decreases |t|
  {
    if t == [] then ""
    else
      match MatchEntity(table, t)
      case Some(e) => [e.ch] + Decode(table, t[|e.text|..])
      case None => [t[0]] + Decode(table, t[1..])
  }

  /** A table that can be decoded: every entity starts with `&`, `&` itself
      has an entity, characters are distinct and no entity starts another. */
  predicate Decodable(table: seq<Entity>) {
    && (forall i | 0 <= i < |table| :: |table[i].text| > 0 && table[i].text[0] == '&')
    && HasEntity(table, '&')
    && (forall i, j | 0 <= i < |table| && 0 <= j < |table| && i != j ::
          table[i].ch != table[j].ch && !IsPrefix(table[i].text, table[j].text))
  }

  /** An encoded character is read back as itself. */
  lemma MatchEncoded(table: seq<Entity>, c: char, rest: string)
    requires Decodable(table)
    ensures HasEntity(table, c) ==> MatchEntity(table, EntityFor(table, c) + rest) == Some(Entity(c, EntityFor(table, c)))
    ensures !HasEntity(table, c) ==> MatchEntity(table, EntityFor(table, c) + rest).None?
  {
    var t := EntityFor(table, c) + rest;
    if HasEntity(table, c) {
      EntityForIsText(table, c);
      var i :| 0 <= i < |table| && table[i].ch == c && EntityFor(table, c) == table[i].text;
      assert table[i] == Entity(c, EntityFor(table, c));
      MatchFinds(table, t, i);
    } else {
      EntityForAbsent(table, c);
      assert c != '&';
      MatchNone(table, t);
    }
  }

  /** Only the entity `i` can start `t` when its text does. */
  lemma {:induction false} MatchFinds(table: seq<Entity>, t: string, i: nat)
    requires Decodable(table)
    requires i < |table| && IsPrefix(table[i].text, t)
    ensures MatchEntity(table, t) == Some(table[i])
  {
    var r := MatchEntity(table, t);
    assert r.Some? by {
      MatchSome(table, t, i);
    }
    var j :| 0 <= j < |table| && table[j] == r.value;
    assert j == i by {
      PrefixesOfOneText(table[i].text, table[j].text, t);
    }
  }

  lemma {:induction false} MatchSome(table: seq<Entity>, t: string, i: nat)
    requires i < |table| && IsPrefix(table[i].text, t)
    ensures MatchEntity(table, t).Some?
  {
    if !IsPrefix(table[0].text, t) {
      assert table[1..][i - 1] == table[i];
      MatchSome(table[1..], t, i - 1);
    }
  }

  /** Two prefixes of one text: the shorter starts the longer. */
  lemma PrefixesOfOneText(a: string, b: string, t: string)
    requires IsPrefix(a, t) && IsPrefix(b, t)
    ensures IsPrefix(a, b) || IsPrefix(b, a)
  {
    if |a| <= |b| {
      assert b[..|a|] == t[..|b|][..|a|] == t[..|a|];
    } else {
      assert a[..|b|] == t[..|a|][..|b|] == t[..|b|];
    }
  }

  lemma MatchNone(table: seq<Entity>, t: string)
    requires forall i | 0 <= i < |table| :: |table[i].text| > 0 && table[i].text[0] == '&'
    requires |t| > 0 && t[0] != '&'
    ensures MatchEntity(table, t).None?
  {
  }

  /** Decoding undoes encoding with any decodable table. */
  lemma {:induction false} DecodeEncode(table: seq<Entity>, s: string)
    requires Decodable(table)
    ensures Decode(table, Encode(table, s)) == s
  {
    if s != [] {
      var c := s[0];
      var e := EntityFor(table, c);
      var rest := Encode(table, s[1..]);
      MatchEncoded(table, c, rest);
      assert (e + rest)[|e|..] == rest;
      assert e + rest != [] by {
        EntityNonEmpty(table, c);
      }
      if !HasEntity(table, c) {
        EntityForAbsent(table, c);
        assert (e + rest)[0] == c && (e + rest)[1..] == rest;
      }
      DecodeEncode(table, s[1..]);
    }
  }

  lemma EntityNonEmpty(table: seq<Entity>, c: char)
    requires forall i | 0 <= i < |table| :: |table[i].text| > 0
    ensures |EntityFor(table, c)| > 0
  {
    if HasEntity(table, c) {
      EntityForIsText(table, c);
    } else {
      EntityForAbsent(table, c);
    }
  }

  /** A character with an entity never appears in the output unless some
      entity text holds it. */
  lemma {:induction false} EncodeRemoves(table: seq<Entity>, s: string, c: char)
    requires HasEntity(table, c)
    requires forall i | 0 <= i < |table| :: c !in table[i].text
    ensures c !in Encode(table, s)
  {
    if s != [] {
      EncodeRemoves(table, s[1..], c);
      if HasEntity(table, s[0]) {
        EntityForIsText(table, s[0]);
      } else {
        EntityForAbsent(table, s[0]);
        assert s[0] != c;
      }
    }
  }
}
