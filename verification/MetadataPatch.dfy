/** Adding and removing labels and annotations of a node with one JSON Patch (RFC 6902), whose operations
    are listed in the order in which two maps happen to be traversed. */
module MetadataPatch {
  import opened Basics

  datatype Kind = Labels | Annotations
  datatype Meta = Meta(labels: map<string, string>, annotations: map<string, string>)
  datatype Op = Add | Remove
  datatype Patch = Patch(op: Op, path: string, value: string)

  function Dir(kind: Kind): string {
    if kind.Labels? then "/metadata/labels" else "/metadata/annotations"
  }

  function Escape(key: string): string {
    if key == [] then []
    else (if key[0] == '/' then "~1" else [key[0]]) + Escape(key[1..])
  }

  /** Joining a directory with one cleaned path element. */
  function JoinPath(dir: string, element: string): string {
    if element == "" || element == "." then dir
    else if element == ".." then "/metadata"
    else dir + "/" + element
  }

  function PathOf(kind: Kind, key: string): string {
    JoinPath(Dir(kind), Escape(key))
  }

  // Generating patches

  /** One operation for each of the keys. */
  function Operations(op: Op, kind: Kind, values: map<string, string>, keys: seq<string>): seq<Patch>
    requires forall k :: k in keys ==> k in values
  {
    if keys == [] then []
    else
      var last := keys[|keys| - 1];
      Operations(op, kind, values, keys[..|keys| - 1]) + [Patch(op, PathOf(kind, last), values[last])]
  }

  ghost predicate Distinct(keys: seq<string>) {
    forall i, j :: 0 <= i < j < |keys| ==> keys[i] != keys[j]
  }

  /** The operations for all keys of a map, each once, in some order. */
  ghost predicate Listing(op: Op, kind: Kind, values: map<string, string>, ps: seq<Patch>) {
    exists keys ::
      && Distinct(keys) && (forall k :: k in keys <==> k in values)
      && ps == Operations(op, kind, values, keys)
  }

  /** The operations for two maps, one after the other. */
  ghost predicate Generated(op: Op, labels: map<string, string>, annotations: map<string, string>, ps: seq<Patch>) {
    exists k | 0 <= k <= |ps| :: Listing(op, Labels, labels, ps[..k]) && Listing(op, Annotations, annotations, ps[k..])
  }

  method ListOperations(op: Op, kind: Kind, values: map<string, string>) returns (ps: seq<Patch>)
    ensures Listing(op, kind, values, ps)
  {
    ps := [];
    var rest := values.Keys;
    ghost var keys := [];
    while rest != {}
      invariant rest <= values.Keys && Distinct(keys)
      invariant forall k :: k in keys <==> k in values && k !in rest
      invariant ps == Operations(op, kind, values, keys)
    {
      var key :| key in rest;
      ps := ps + [Patch(op, PathOf(kind, key), values[key])];
      keys := keys + [key];
      assert keys[..|keys| - 1] == keys[..|keys| - 1][..];
      rest := rest - {key};
    }
  }

  /** Refused when there is nothing to do. */
  method GeneratePatch(op: Op, labels: map<string, string>, annotations: map<string, string>)
    returns (r: Option<seq<Patch>>)
    ensures r.None? <==> labels == map[] && annotations == map[]
    ensures r.Some? ==> Generated(op, labels, annotations, r.value)
  {
    if |labels| == 0 && |annotations| == 0 {
      return None;
    }
    var first := ListOperations(op, Labels, labels);
    var second := ListOperations(op, Annotations, annotations);
    var ps := first + second;
    assert ps[..|first|] == first && ps[|first|..] == second;
    return Some(ps);
  }

  method GenerateAddPatch(labels: map<string, string>, annotations: map<string, string>)
    returns (r: Option<seq<Patch>>)
    ensures r.None? <==> labels == map[] && annotations == map[]
    ensures r.Some? ==> Generated(Add, labels, annotations, r.value)
  {
    r := GeneratePatch(Add, labels, annotations);
  }

  function NoValues(keys: seq<string>): (values: map<string, string>)
    ensures forall k :: k in keys <==> k in values
  {
    map k | k in keys :: ""
  }

  method GenerateRemovePatch(labels: seq<string>, annotations: seq<string>) returns (r: Option<seq<Patch>>)
    ensures r.None? <==> labels == [] && annotations == []
    ensures r.Some? ==> Generated(Remove, NoValues(labels), NoValues(annotations), r.value)
  {
    var labelMap := Blank(labels);
    var annotationMap := Blank(annotations);
    assert labels != [] ==> labels[0] in labelMap;
    assert annotations != [] ==> annotations[0] in annotationMap;
    r := GeneratePatch(Remove, labelMap, annotationMap);
  }

  method Blank(keys: seq<string>) returns (values: map<string, string>)
    ensures values == NoValues(keys)
  {
    values := map[];
    for i := 0 to |keys|
      invariant values == NoValues(keys[..i])
    {
      values := values[keys[i] := ""];
      assert keys[..i + 1] == keys[..i] + [keys[i]];
    }
    assert keys[..|keys|] == keys;
  }

  // What a path addresses

  /** The key that a reference token stands for (section 4 of RFC 6901). */
  function Decode(token: string): Option<string> {
    if token == [] then Some("")
    else if token[0] == '~' then
      if |token| >= 2 && (token[1] == '0' || token[1] == '1') then
        Prepend(if token[1] == '0' then '~' else '/', Decode(token[2..]))
      else None
    else Prepend(token[0], Decode(token[1..]))
  }

  function Prepend(c: char, rest: Option<string>): Option<string> {
    if rest.Some? then Some([c] + rest.value) else None
  }

  function Below(kind: Kind, path: string): Option<string> {
    var dir := Dir(kind) + "/";
    if dir <= path && '/' !in path[|dir|..] then Decode(path[|dir|..]) else None
  }

  datatype Entry = Entry(kind: Kind, key: string)

  /** The label or annotation at a path, if it is the path of one. */
  function Target(path: string): Option<Entry> {
    if Below(Labels, path).Some? then Some(Entry(Labels, Below(Labels, path).value))
    else if Below(Annotations, path).Some? then Some(Entry(Annotations, Below(Annotations, path).value))
    else None
  }

  /** Escaping replaces '/' only, so a key must have no '~', and must not be a path element that is cleaned away. */
  predicate Plain(key: string) {
    '~' !in key && key != "" && key != "." && key != ".."
  }

  lemma {:induction false} EscapeToken(key: string)
    ensures '/' !in Escape(key)
    ensures key != "" <==> Escape(key) != ""
    decreases |key|
  {
    if key != [] {
      EscapeToken(key[1..]);
    }
  }

  /** Decoding undoes escaping exactly for keys without '~'; it turns others into something shorter, if
      it accepts them at all. */
  lemma {:induction false} DecodeEscape(key: string)
    ensures Decode(Escape(key)) == Some(key) <==> '~' !in key
    ensures Decode(Escape(key)).Some? && '~' in key ==> |Decode(Escape(key)).value| < |key|
    decreases |key|
  {
    hide Escape, Decode;
    if key == [] {
      DecodeNothing();
    } else if key[0] == '~' {
      DecodeTilde(key);
      if |key| > 1 {
        DecodeEscape(key[2..]);
      }
    } else {
      DecodeEscape(key[1..]);
      DecodeOther(key);
      assert key == [key[0]] + key[1..];
    }
  }

  lemma DecodeNothing()
    ensures Decode(Escape("")) == Some("")
  {
  }

  /** A '~' in a key is taken for the start of an escape sequence. */
  lemma DecodeTilde(key: string)
    requires key != [] && key[0] == '~'
    ensures Decode(Escape(key)) ==
            if |key| > 1 && (key[1] == '0' || key[1] == '1')
            then Prepend(if key[1] == '0' then '~' else '/', Decode(Escape(key[2..])))
            else None
  {
    var token, rest := Escape(key), Escape(key[1..]);
    assert token == ['~'] + rest;
    if |key| > 1 {
      assert key[1..][1..] == key[2..];
      assert rest == (if key[1] == '/' then "~1" else [key[1]]) + Escape(key[2..]);
      assert key[1] != '/' ==> token[2..] == Escape(key[2..]);
    }
  }

  lemma DecodeOther(key: string)
    requires key != [] && key[0] != '~'
    ensures Decode(Escape(key)) == Prepend(key[0], Decode(Escape(key[1..])))
  {
    var token, rest := Escape(key), Escape(key[1..]);
    if key[0] == '/' {
      assert token[2..] == rest;
    } else {
      assert token[1..] == rest;
    }
  }

  lemma DotsOnly(key: string)
    ensures Escape(key) == "." <==> key == "."
    ensures Escape(key) == ".." <==> key == ".."
  {
    if key != [] {
      EscapeToken(key[1..]);
      if |key| > 1 {
        EscapeToken(key[2..]);
        assert key[1..][1..] == key[2..];
      }
    }
  }

  lemma BelowDirectory(kind: Kind, token: string)
    requires '/' !in token
    ensures Target(Dir(kind) + "/" + token) == if Decode(token).Some? then Some(Entry(kind, Decode(token).value)) else None
  {
    hide Decode;
    var path, dir := Dir(kind) + "/" + token, Dir(kind) + "/";
    assert path == dir + token && path[|dir|..] == token;
    assert path[10] == dir[10];
    assert Below(kind, path) == Decode(token);
  }

  /** The path generated for a key addresses that label or annotation exactly when the key is plain. */
  lemma PathTargets(kind: Kind, key: string)
    ensures Target(PathOf(kind, key)) == Some(Entry(kind, key)) <==> Plain(key)
  {
    hide Decode, Escape;
    EscapeToken(key);
    DecodeEscape(key);
    DotsOnly(key);
    if key != "" && key != "." && key != ".." {
      hide Target;
      BelowDirectory(kind, Escape(key));
    }
  }

  /** Where a plain key is found: its kind's part of the metadata, and the key with '/' escaped. */
  lemma {:induction false} PlainPath(key: string)
    requires Plain(key)
    ensures PathOf(Labels, key) == "/metadata/labels/" + Escape(key)
    ensures PathOf(Annotations, key) == "/metadata/annotations/" + Escape(key)
    ensures '/' !in key ==> Escape(key) == key
  {
    EscapeToken(key);
    DotsOnly(key);
    if '/' !in key {
      EscapeNothing(key);
    }
  }

  lemma {:induction false} EscapeNothing(key: string)
    requires '/' !in key
    ensures Escape(key) == key
  {
    if key != [] {
      EscapeNothing(key[1..]);
    }
  }

  // Applying patches

  /** A rejected patch changes nothing; one that addresses something else is beyond this model. */
  datatype Effect = Applied(meta: Meta) | Rejected | Elsewhere

  function Values(m: Meta, kind: Kind): map<string, string> {
    if kind.Labels? then m.labels else m.annotations
  }

  function WithValues(m: Meta, kind: Kind, values: map<string, string>): Meta {
    if kind.Labels? then m.(labels := values) else m.(annotations := values)
  }

  /** Sections 4.1 and 4.2 of RFC 6902. */
  function ApplyOne(m: Meta, p: Patch): Effect {
    match Target(p.path)
    case None => Elsewhere
    case Some(Entry(kind, key)) =>
      var values := Values(m, kind);
      if p.op == Add then Applied(WithValues(m, kind, values[key := p.value]))
      else if key in values then Applied(WithValues(m, kind, values - {key}))
      else Rejected
  }

  /** All operations in order, or none of them (section 5 of RFC 6902). */
  function Apply(m: Meta, ps: seq<Patch>): Effect {
    if ps == [] then Applied(m)
    else
      var before := Apply(m, ps[..|ps| - 1]);
      if before.Applied? then ApplyOne(before.meta, ps[|ps| - 1]) else before
  }

  lemma {:induction false} ApplyJoin(m: Meta, a: seq<Patch>, b: seq<Patch>)
    ensures Apply(m, a + b) == if Apply(m, a).Applied? then Apply(Apply(m, a).meta, b) else Apply(m, a)
    decreases |b|
  {
    if b == [] {
      assert a + b == a;
    } else {
      ApplyJoin(m, a, b[..|b| - 1]);
      assert (a + b)[..|a + b| - 1] == a + b[..|b| - 1];
    }
  }

  ghost predicate AllPlain(values: map<string, string>) {
    forall k :: k in values ==> Plain(k)
  }

  lemma ApplyEntry(m: Meta, kind: Kind, p: Patch, key: string)
    requires Plain(key) && p.path == PathOf(kind, key)
    ensures var values := Values(m, kind);
            ApplyOne(m, p) ==
            if p.op == Add then Applied(WithValues(m, kind, values[key := p.value]))
            else if key in values then Applied(WithValues(m, kind, values - {key}))
            else Rejected
  {
    hide Target, PathOf, Plain;
    PathTargets(kind, key);
  }

  lemma ApplySnoc(m: Meta, ps: seq<Patch>, p: Patch)
    ensures Apply(m, ps + [p]) == if Apply(m, ps).Applied? then ApplyOne(Apply(m, ps).meta, p) else Apply(m, ps)
  {
    hide ApplyOne;
    assert (ps + [p])[..|ps + [p]| - 1] == ps;
  }

  lemma {:induction false} AddListed(m: Meta, kind: Kind, values: map<string, string>, keys: seq<string>)
    requires AllPlain(values) && forall k :: k in keys ==> k in values
    ensures Apply(m, Operations(Add, kind, values, keys)) ==
            Applied(WithValues(m, kind, Values(m, kind) + map k | k in keys :: values[k]))
    decreases |keys|
  {
    hide Apply, ApplyOne, PathOf, Plain;
    if keys == [] {
      NothingApplied(m);
      assert Values(m, kind) + map[] == Values(m, kind);
    } else {
      var front, last := keys[..|keys| - 1], keys[|keys| - 1];
      var p := Patch(Add, PathOf(kind, last), values[last]);
      AddListed(m, kind, values, front);
      ApplySnoc(m, Operations(Add, kind, values, front), p);
      ApplyEntry(Apply(m, Operations(Add, kind, values, front)).meta, kind, p, last);
      assert keys == front + [last];
      AddOneMore(Values(m, kind), values, front, last);
    }
  }

  lemma NothingApplied(m: Meta)
    ensures Apply(m, []) == Applied(m)
  {
  }

  lemma AddOneMore(old': map<string, string>, values: map<string, string>, front: seq<string>, last: string)
    requires last in values && forall k :: k in front ==> k in values
    ensures old' + (map k | k in front + [last] :: values[k]) ==
            (old' + map k | k in front :: values[k])[last := values[last]]
  {
  }

  lemma {:induction false} RemoveListed(m: Meta, kind: Kind, values: map<string, string>, keys: seq<string>)
    requires AllPlain(values) && Distinct(keys) && forall k :: k in keys ==> k in values
    ensures Apply(m, Operations(Remove, kind, values, keys)) ==
            if forall k :: k in keys ==> k in Values(m, kind)
            then Applied(WithValues(m, kind, Values(m, kind) - set k | k in keys)) else Rejected
    decreases |keys|
  {
    hide Apply, ApplyOne, PathOf, Plain;
    if keys == [] {
      NothingApplied(m);
      assert Values(m, kind) - (set k | k in keys) == Values(m, kind);
    } else {
      var front, last := keys[..|keys| - 1], keys[|keys| - 1];
      var p := Patch(Remove, PathOf(kind, last), values[last]);
      RemoveListed(m, kind, values, front);
      ApplySnoc(m, Operations(Remove, kind, values, front), p);
      assert keys == front + [last] && last !in front;
      if forall k :: k in front ==> k in Values(m, kind) {
        ApplyEntry(Apply(m, Operations(Remove, kind, values, front)).meta, kind, p, last);
        RemoveOneMore(Values(m, kind), front, last);
      }
    }
  }

  lemma RemoveOneMore(old': map<string, string>, front: seq<string>, last: string)
    ensures old' - (set k | k in front + [last]) == (old' - set k | k in front) - {last}
  {
  }

  lemma AddListing(m: Meta, kind: Kind, values: map<string, string>, ps: seq<Patch>)
    requires AllPlain(values) && Listing(Add, kind, values, ps)
    ensures Apply(m, ps) == Applied(WithValues(m, kind, Values(m, kind) + values))
  {
    hide Apply, Operations, Plain;
    var keys :| Distinct(keys) && (forall k :: k in keys <==> k in values) && ps == Operations(Add, kind, values, keys);
    AddListed(m, kind, values, keys);
    assert (map k | k in keys :: values[k]) == values;
  }

  lemma RemoveListing(m: Meta, kind: Kind, values: map<string, string>, ps: seq<Patch>)
    requires AllPlain(values) && Listing(Remove, kind, values, ps)
    ensures Apply(m, ps) ==
            if values.Keys <= Values(m, kind).Keys
            then Applied(WithValues(m, kind, Values(m, kind) - values.Keys)) else Rejected
  {
    hide Apply, Operations, Plain;
    var keys :| Distinct(keys) && (forall k :: k in keys <==> k in values) && ps == Operations(Remove, kind, values, keys);
    RemoveListed(m, kind, values, keys);
    assert (set k | k in keys) == values.Keys;
  }

  /** In whatever order the maps were traversed, an add patch sets exactly the given entries, overwriting
      those that exist, and keeps all others. */
  lemma AddOverwrites(m: Meta, labels: map<string, string>, annotations: map<string, string>, ps: seq<Patch>)
    requires AllPlain(labels) && AllPlain(annotations) && Generated(Add, labels, annotations, ps)
    ensures Apply(m, ps) == Applied(Meta(m.labels + labels, m.annotations + annotations))
  {
    hide Apply, Listing, AllPlain;
    var k :| 0 <= k <= |ps| && Listing(Add, Labels, labels, ps[..k]) && Listing(Add, Annotations, annotations, ps[k..]);
    assert ps == ps[..k] + ps[k..];
    ApplyJoin(m, ps[..k], ps[k..]);
    AddListing(m, Labels, labels, ps[..k]);
    AddListing(m.(labels := m.labels + labels), Annotations, annotations, ps[k..]);
  }

  /** A remove patch deletes exactly the given entries if all of them exist, and otherwise changes nothing. */
  lemma RemoveTransactional(m: Meta, labels: map<string, string>, annotations: map<string, string>, ps: seq<Patch>)
    requires AllPlain(labels) && AllPlain(annotations) && Generated(Remove, labels, annotations, ps)
    ensures Apply(m, ps) ==
            if labels.Keys <= m.labels.Keys && annotations.Keys <= m.annotations.Keys
            then Applied(Meta(m.labels - labels.Keys, m.annotations - annotations.Keys)) else Rejected
  {
    hide Apply, Listing, AllPlain;
    var k :| 0 <= k <= |ps| && Listing(Remove, Labels, labels, ps[..k]) && Listing(Remove, Annotations, annotations, ps[k..]);
    assert ps == ps[..k] + ps[k..];
    ApplyJoin(m, ps[..k], ps[k..]);
    RemoveListing(m, Labels, labels, ps[..k]);
    RemoveListing(m.(labels := m.labels - labels.Keys), Annotations, annotations, ps[k..]);
  }

  /** Removing new entries again undoes adding them, whatever the two orders were. */
  lemma RemoveUndoesAdd(m: Meta, labels: map<string, string>, annotations: map<string, string>,
                        added: seq<Patch>, removed: seq<Patch>)
    requires AllPlain(labels) && AllPlain(annotations)
    requires labels.Keys !! m.labels.Keys && annotations.Keys !! m.annotations.Keys
    requires Generated(Add, labels, annotations, added) && Generated(Remove, labels, annotations, removed)
    ensures Apply(m, added + removed) == Applied(m)
  {
    hide Apply, Generated, AllPlain;
    AddOverwrites(m, labels, annotations, added);
    ApplyJoin(m, added, removed);
    var now := Apply(m, added).meta;
    RemoveTransactional(now, labels, annotations, removed);
    assert now.labels - labels.Keys == m.labels && now.annotations - annotations.Keys == m.annotations;
  }
}
