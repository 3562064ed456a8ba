/** The JSON reader's token model: a document is the sequence of tokens a Utf8JsonReader reports. */
module JsonTokens {
  import opened Wrappers

  datatype Token =
    | StartObject
    | EndObject
    | StartArray
    | EndArray
    | PropertyName(name: string)
    | String(s: string)
    | Number(n: real)
    | True
    | False
    | Null
    | Comment(text: string)

  /** The reader's current token; None once the reader has run past the last token. */
  function At(ts: seq<Token>, pos: nat): (r: Option<Token>)
    ensures r.Some? <==> pos < |ts|
    ensures r.Some? ==> r.value == ts[pos]
  {
    if pos < |ts| then Some(ts[pos]) else None
  }

  predicate IsScalar(t: Token)
  {
    t.String? || t.Number? || t.True? || t.False? || t.Null?
  }

  /**
   * Where the framework's deserializer stops when it consumes one complete value starting
   * at pos: the position just past the value, or None when no complete value starts there.
   */
  function SkipValue(ts: seq<Token>, pos: nat): (r: Option<nat>)
    ensures r.Some? ==> pos < r.value <= |ts|
  {
    if pos >= |ts| then None
    else if IsScalar(ts[pos]) then Some(pos + 1)
    else if ts[pos].StartObject? || ts[pos].StartArray? then SkipContainer(ts, pos + 1, 1)
    else None
  }

  /** Skips tokens until the container opened depth levels up is closed. */
  function SkipContainer(ts: seq<Token>, pos: nat, depth: nat): (r: Option<nat>)
    requires depth > 0
    ensures r.Some? ==> pos < r.value <= |ts|
    decreases |ts| - pos
  {
    if pos >= |ts| then None
    else if ts[pos].StartObject? || ts[pos].StartArray? then SkipContainer(ts, pos + 1, depth + 1)
    else if ts[pos].EndObject? || ts[pos].EndArray? then
      (if depth == 1 then Some(pos + 1) else SkipContainer(ts, pos + 1, depth - 1))
    else SkipContainer(ts, pos + 1, depth)
  }

  /** span is exactly one complete value. */
  predicate IsValueSpan(span: seq<Token>)
  {
    SkipValue(span, 0) == Some(|span|)
  }

  /** Skipping a container depends only on the tokens it passes over. */
  lemma {:induction false} SkipContainerFrame(ts: seq<Token>, pos: nat, depth: nat, us: seq<Token>, shift: nat)
    requires depth > 0 && SkipContainer(ts, pos, depth).Some?
    requires var e := SkipContainer(ts, pos, depth).value;
      shift + e <= |us| && forall i :: pos <= i < e ==> us[shift + i] == ts[i]
    ensures SkipContainer(us, shift + pos, depth) == Some(shift + SkipContainer(ts, pos, depth).value)
    decreases |ts| - pos
  {
    var e := SkipContainer(ts, pos, depth).value;
    assert us[shift + pos] == ts[pos];
    if ts[pos].StartObject? || ts[pos].StartArray? {
      SkipContainerFrame(ts, pos + 1, depth + 1, us, shift);
    } else if ts[pos].EndObject? || ts[pos].EndArray? {
      if depth != 1 {
        SkipContainerFrame(ts, pos + 1, depth - 1, us, shift);
      }
    } else {
      SkipContainerFrame(ts, pos + 1, depth, us, shift);
    }
  }

  /** A complete value keeps its extent when it is embedded between other tokens. */
  lemma SkipValueEmbedded(pre: seq<Token>, span: seq<Token>, post: seq<Token>)
    requires IsValueSpan(span)
    ensures SkipValue(pre + span + post, |pre|) == Some(|pre| + |span|)
  {
    var us := pre + span + post;
    assert us[|pre|] == span[0];
    if span[0].StartObject? || span[0].StartArray? {
      forall i | 1 <= i < |span| ensures us[|pre| + i] == span[i] { }
      SkipContainerFrame(span, 1, 1, us, |pre|);
    }
  }
}
