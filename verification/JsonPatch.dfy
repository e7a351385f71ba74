/** JSON documents, JSON Pointers (RFC 6901) and the "add" and "replace" operations of JSON Patch
    (sections 4.1 and 4.3 of RFC 6902) on object members. */
module JsonPatch {
  import opened Prelude
  import opened Text

  datatype Json =
    | Null
    | Bool(b: bool)
    | Num(n: real)
    | Str(s: string)
    | Arr(items: seq<Json>)
    | Obj(members: map<string, Json>)

  // ---------------------------------------------------------------- pointer escaping

  /** `strings.NewReplacer("~", "~0", "/", "~1")`: one pass over the text. */
  function Escape(s: string): string {
    if s == "" then ""
    else (if s[0] == '~' then "~0" else if s[0] == '/' then "~1" else [s[0]]) + Escape(s[1..])
  }

  /** Replaces every occurrence of the two characters `~d`, from left to right. */
  function ReplacePair(s: string, d: char, put: char): string {
    if |s| >= 2 && s[0] == '~' && s[1] == d then [put] + ReplacePair(s[2..], d, put)
    else if s == "" then ""
    else [s[0]] + ReplacePair(s[1..], d, put)
  }

  /** Section 4 of RFC 6901: first `~1` becomes `/`, then `~0` becomes `~`. */
  function Unescape(s: string): string {
    ReplacePair(ReplacePair(s, '1', '/'), '0', '~')
  }

  /** What the first decoding pass leaves of an escaped text. */
  function EscapeTilde(s: string): string {
    if s == "" then "" else (if s[0] == '~' then "~0" else [s[0]]) + EscapeTilde(s[1..])
  }

  lemma ReplaceCons(c: char, s: string, d: char, put: char)
    requires c != '~' || s == "" || s[0] != d
    ensures ReplacePair([c] + s, d, put) == [c] + ReplacePair(s, d, put)
  {
  }

  lemma ReplaceHit(s: string, d: char, put: char)
    ensures ReplacePair(['~', d] + s, d, put) == [put] + ReplacePair(s, d, put)
  {
  }

  lemma {:induction false} FirstPass(s: string)
    ensures ReplacePair(Escape(s), '1', '/') == EscapeTilde(s)
  {
    if s != "" {
      var rest := Escape(s[1..]);
      FirstPass(s[1..]);
      if s[0] == '/' {
        ReplaceHit(rest, '1', '/');
      } else if s[0] == '~' {
        ReplaceCons('0', rest, '1', '/');
        ReplaceCons('~', "0" + rest, '1', '/');
        assert "~0" + rest == "~" + ("0" + rest);
      } else {
        ReplaceCons(s[0], rest, '1', '/');
      }
    }
  }

  lemma {:induction false} SecondPass(s: string)
    ensures ReplacePair(EscapeTilde(s), '0', '~') == s
  {
    if s != "" {
      var rest := EscapeTilde(s[1..]);
      SecondPass(s[1..]);
      if s[0] == '~' {
        ReplaceHit(rest, '0', '~');
      } else {
        ReplaceCons(s[0], rest, '0', '~');
      }
      assert s == [s[0]] + s[1..];
    }
  }

  /** Decoding undoes encoding on every key. */
  lemma UnescapeEscape(s: string)
    ensures Unescape(Escape(s)) == s
  {
    FirstPass(s);
    SecondPass(s);
  }

  lemma {:induction false} EscapedHasNoSlash(s: string)
    ensures '/' !in Escape(s)
  {
    if s != "" { EscapedHasNoSlash(s[1..]); }
  }

  lemma {:induction false} EscapePlain(s: string)
    requires '~' !in s && '/' !in s
    ensures Escape(s) == s
  {
    if s != "" { EscapePlain(s[1..]); }
  }

  // ---------------------------------------------------------------- pointers

  function UnescapeAll(parts: seq<string>): seq<string> {
    if parts == [] then [] else [Unescape(parts[0])] + UnescapeAll(parts[1..])
  }

  /** Section 3 of RFC 6901: the reference tokens of a pointer, if it is one. */
  function Tokens(pointer: string): Option<seq<string>> {
    if pointer == "" then Some([])
    else if pointer[0] != '/' then None
    else Some(UnescapeAll(Split(pointer[1..], '/')))
  }

  /** The pointer with the given reference tokens. */
  function Pointer(tokens: seq<string>): string {
    if tokens == [] then "" else "/" + Escape(tokens[0]) + Pointer(tokens[1..])
  }

  lemma PointerCons(token: string, tail: seq<string>)
    ensures Pointer([token] + tail) == "/" + Escape(token) + Pointer(tail)
    ensures Pointer([token]) == "/" + Escape(token)
  {
  }

  lemma {:induction false} TokensCons(token: string, tail: seq<string>)
    ensures Split(Pointer([token] + tail)[1..], '/') ==
            [Escape(token)] + (if tail == [] then [] else Split(Pointer(tail)[1..], '/'))
  {
    EscapedHasNoSlash(token);
    PointerCons(token, tail);
    hide Escape, Split;
    var body := Pointer([token] + tail)[1..];
    if tail == [] {
      assert body == Escape(token);
      SplitWhole(Escape(token), '/');
    } else {
      assert body == Escape(token) + ['/'] + Pointer(tail)[1..];
      SplitAfter(Escape(token), Pointer(tail)[1..], '/');
    }
  }

  /** A pointer built from escaped tokens resolves to exactly those tokens. */
  lemma {:induction false} TokensOfPointer(tokens: seq<string>)
    ensures Tokens(Pointer(tokens)) == Some(tokens)
  {
    if tokens != [] {
      var tail := tokens[1..];
      assert tokens == [tokens[0]] + tail;
      TokensCons(tokens[0], tail);
      UnescapeEscape(tokens[0]);
      var parts := Split(Pointer(tokens)[1..], '/');
      if tail != [] {
        TokensOfPointer(tail);
        assert parts[1..] == Split(Pointer(tail)[1..], '/');
      } else {
        assert parts == [Escape(tokens[0])] && parts[1..] == [];
        assert UnescapeAll(parts) == [Unescape(Escape(tokens[0]))];
      }
    }
  }

  // ---------------------------------------------------------------- operations

  datatype OpKind = Add | Replace

  datatype Operation = Operation(kind: OpKind, path: string, value: Json)

  /** Stores `v` under the tokens. The enclosing object must exist, and for a replacement so must
      the target itself. */
  function Put(doc: Json, tokens: seq<string>, v: Json, mustExist: bool): Option<Json>
    decreases |tokens|
  {
    if tokens == [] then Some(v)
    else if !doc.Obj? then None
    else if |tokens| == 1 then
      if mustExist && tokens[0] !in doc.members then None
      else Some(Obj(doc.members[tokens[0] := v]))
    else if tokens[0] !in doc.members then None
    else
      var inner := Put(doc.members[tokens[0]], tokens[1..], v, mustExist);
      if inner.None? then None else Some(Obj(doc.members[tokens[0] := inner.value]))
  }

  function Apply(doc: Json, op: Operation): Option<Json> {
    var tokens := Tokens(op.path);
    if tokens.None? then None else Put(doc, tokens.value, op.value, op.kind == Replace)
  }

  /** The value a list of tokens points to. */
  function Resolve(doc: Json, tokens: seq<string>): Option<Json>
    decreases |tokens|
  {
    if tokens == [] then Some(doc)
    else if !doc.Obj? || tokens[0] !in doc.members then None
    else Resolve(doc.members[tokens[0]], tokens[1..])
  }

  /** Storing succeeds exactly when the enclosing object exists and, for a replacement, the target does;
      the value is then found where it was stored. */
  lemma {:induction false} PutExactly(doc: Json, parent: seq<string>, name: string, v: Json, mustExist: bool)
    ensures Put(doc, parent + [name], v, mustExist).Some? <==>
            && Resolve(doc, parent).Some? && Resolve(doc, parent).value.Obj?
            && (mustExist ==> name in Resolve(doc, parent).value.members)
    ensures var out := Put(doc, parent + [name], v, mustExist);
            out.Some? ==> Resolve(out.value, parent + [name]) == Some(v)
    decreases |parent|
  {
    var tokens := parent + [name];
    if parent == [] {
      assert tokens == [name] && tokens[1..] == [];
    } else {
      assert tokens[1..] == parent[1..] + [name] && tokens[0] == parent[0];
      if doc.Obj? && tokens[0] in doc.members {
        PutExactly(doc.members[tokens[0]], parent[1..], name, v, mustExist);
      }
    }
  }

  /** The two paths part company at some token. */
  predicate Diverge(a: seq<string>, b: seq<string>) {
    a != [] && b != [] && (a[0] != b[0] || Diverge(a[1..], b[1..]))
  }

  /** Storing leaves every path that parts from the target as it was. */
  lemma {:induction false} PutFrame(doc: Json, tokens: seq<string>, v: Json, mustExist: bool, other: seq<string>)
    requires Put(doc, tokens, v, mustExist).Some? && Diverge(tokens, other)
    ensures Resolve(Put(doc, tokens, v, mustExist).value, other) == Resolve(doc, other)
    decreases |tokens|
  {
    if |tokens| > 1 && tokens[0] == other[0] {
      PutFrame(doc.members[tokens[0]], tokens[1..], v, mustExist, other[1..]);
    }
  }
}
