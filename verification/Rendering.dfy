/**
 Rendering the four configuration files from the candidate: the dirty keys of each file are
 patched one after the other, in the order given.
 */
module Rendering {
  import opened Lexer
  import opened Numbers
  import opened Config
  import opened Routing
  import Batch
  import Ini
  import Qci

  /** The text of a leaf value in its file. */
  function TextOf(v: Value, key: string): Bytes {
    match v
    case Str(s) => if key == "cell_barred" then Quote(s) else s
    case I32(n) => FormatInt(n)
    case U32(n) => FormatInt(n)
    case F64(m) => FormatMilli(m)
    case Flag(b) => if b then "true" else "false"
  }

  function LeafText(cfg: Configuration, key: string): Bytes {
    if key in cfg.leaves then TextOf(cfg.leaves[key], key) else []
  }

  function LeafTexts(cfg: Configuration, keys: set<string>): map<Bytes, Bytes> {
    map k | k in keys :: LeafText(cfg, k)
  }

  // ----- enb.conf

  function RenderEnb(d: Bytes, order: seq<string>, cfg: Configuration): Bytes
    decreases |order|
  {
    if order == [] then d
    else
      match EnbPlace(order[0])
      case None => RenderEnb(d, order[1..], cfg)
      case Some((section, key)) => RenderEnb(Ini.PatchIni(d, section, key, LeafText(cfg, order[0])), order[1..], cfg)
  }

  method RenderEnbConfig(data: Bytes, order: seq<string>, cfg: Configuration) returns (out: Bytes)
    ensures out == RenderEnb(data, order, cfg)
  {
    hide EnbPlace, LeafText;
    out := data;
    var i := 0;
    while i < |order|
      invariant 0 <= i <= |order| && RenderEnb(out, order[i..], cfg) == RenderEnb(data, order, cfg)
    {
      assert order[i..][0] == order[i] && order[i..][1..] == order[i + 1..];
      var place := EnbPlace(order[i]);
      if place.Some? {
        out := Ini.PatchIniAssignment(out, place.value.0, place.value.1, LeafText(cfg, order[i]));
      }
      i := i + 1;
    }
  }

  // ----- rb.conf

  /** patchQCIProfile with the checks that precede the patch. */
  function PatchKey(d: Bytes, key: string, cfg: Configuration): Option<Bytes> {
    match ParseQciKey(key)
    case None => None
    case Some((qci, field)) =>
      match FindProfile(cfg.profiles, qci, 0)
      case None => None
      case Some(i) =>
        if field in QCI_FIELDS && field in cfg.profiles[i].fields
        then Qci.PatchProfile(d, qci, field, cfg.profiles[i].fields[field])
        else None
  }

  function RenderRb(d: Bytes, order: seq<string>, cfg: Configuration): Option<Bytes>
    decreases |order|
  {
    if order == [] then Some(d)
    else if !(QCI_PREFIX <= order[0]) then RenderRb(d, order[1..], cfg)
    else match PatchKey(d, order[0], cfg) case None => None case Some(d') => RenderRb(d', order[1..], cfg)
  }

  method RenderRbConfig(data: Bytes, order: seq<string>, cfg: Configuration) returns (r: Option<Bytes>)
    ensures r == RenderRb(data, order, cfg)
  {
    hide ParseQciKey, Qci.PatchProfile, QCI_FIELDS;
    var out, i := data, 0;
    while i < |order|
      invariant 0 <= i <= |order| && RenderRb(out, order[i..], cfg) == RenderRb(data, order, cfg)
    {
      assert order[i..][0] == order[i] && order[i..][1..] == order[i + 1..];
      if QCI_PREFIX <= order[i] {
        var key := ParseQciKey(order[i]);
        if key.None? {
          return None;
        }
        var p := FindProfile(cfg.profiles, key.value.0, 0);
        if p.None? || !(key.value.1 in QCI_FIELDS && key.value.1 in cfg.profiles[p.value].fields) {
          return None;
        }
        var patched := Qci.PatchQciProfile(out, key.value.0, key.value.1, cfg.profiles[p.value].fields[key.value.1]);
        if patched.None? {
          return None;
        }
        out := patched.value;
      }
      i := i + 1;
    }
    return Some(out);
  }

  // ----- all files

  /** What the renderer of file `f` makes of its bytes. */
  function RenderFor(f: File, d: Bytes, order: seq<string>, cfg: Configuration): Option<Bytes> {
    match f
    case ENB => Some(RenderEnb(d, order, cfg))
    case RR => Batch.Render(d, order, LeafTexts(cfg, RR_KEYS))
    case SIB => Batch.Render(d, order, LeafTexts(cfg, SIB_KEYS))
    case RB => RenderRb(d, order, cfg)
  }

  method RenderOne(f: File, d: Bytes, order: seq<string>, cfg: Configuration) returns (r: Option<Bytes>)
    ensures r == RenderFor(f, d, order, cfg)
  {
    match f
    case ENB =>
      var out := RenderEnbConfig(d, order, cfg);
      r := Some(out);
    case RR => r := Batch.RenderFile(d, order, LeafTexts(cfg, RR_KEYS));
    case SIB => r := Batch.RenderFile(d, order, LeafTexts(cfg, SIB_KEYS));
    case RB => r := RenderRbConfig(d, order, cfg);
  }
}
