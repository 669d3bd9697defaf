/** The tree search the ScienceDirect refiner runs over the JSON embedded in an
    article page: collect every dict tagged `"#name": tag`, without looking
    inside a tagged dict, then follow a key path from each. */
module SdJson {
  import opened Wrappers

  /** JSON-like data. A dict keeps its keys and its values in insertion order,
      as two columns; `list(d.values())` is `vals`. */
  datatype Json =
    | JNull
    | JBool(b: bool)
    | JNum(n: int)
    | JStr(s: string)
    | JList(items: seq<Json>)
    | JDict(keys: seq<string>, vals: seq<Json>)

  datatype FindError =
    | KeyMissing(key: string)   // KeyError from `d[idx]`
    | NotADict(key: string)     // TypeError from subscripting a list or scalar with a string
    | NoMatch(tag: string)      // IndexError from `[0]` when nothing matched

  /** `d.get(k)`: the value stored under the first occurrence of `k`. */
  function Lookup(keys: seq<string>, vals: seq<Json>, k: string): (r: Option<Json>)
    ensures r.Some? ==> r.value in vals
  {
    if keys == [] || vals == [] then None
    else if keys[0] == k then Some(vals[0])
    else Lookup(keys[1..], vals[1..], k)
  }

  /** A dict whose `#name` entry is the string `tag`. */
  predicate IsTagged(j: Json, tag: string)
  {
    j.JDict? && Lookup(j.keys, j.vals, "#name") == Some(JStr(tag))
  }

  /** `for idx in indices: d = d[idx]`. */
  function Navigate(j: Json, path: seq<string>): (r: Result<Json, FindError>)
    ensures path == [] ==> r == Ok(j)
    ensures r.Err? ==> !r.error.NoMatch?
    decreases path
  {
    if path == [] then Ok(j)
    else
      match j
      case JDict(keys, vals) =>
        (match Lookup(keys, vals, path[0])
         case None => Err(KeyMissing(path[0]))
         case Some(v) => Navigate(v, path[1..]))
      case _ => Err(NotADict(path[0]))
  }

  /** `results` followed by whatever `rest` found, or the error that stopped it. */
  function Prepend(results: seq<Json>, rest: Result<seq<Json>, FindError>): Result<seq<Json>, FindError>
  {
    match rest
    case Ok(more) => Ok(results + more)
    case Err(e) => Err(e)
  }

  /** The three overloads of `_sd_find`, on a dict, a list and anything else. */
  function Find(j: Json, tag: string, path: seq<string>): (r: Result<seq<Json>, FindError>)
    ensures !j.JDict? && !j.JList? ==> r == Ok([])
    ensures IsTagged(j, tag) ==> (r.Ok? <==> Navigate(j, path).Ok?)
    ensures IsTagged(j, tag) && r.Ok? ==> r.value == [Navigate(j, path).value]
    ensures IsTagged(j, tag) && path == [] ==> r == Ok([j])
    ensures r.Err? ==> !r.error.NoMatch?
    decreases j, 1
  {
    match j
    case JDict(keys, vals) =>
      if IsTagged(j, tag) then
        (match Navigate(j, path)
         case Ok(v) => Ok([v])
         case Err(e) => Err(e))
      else FindAll(vals, tag, path)
    case JList(items) => FindAll(items, tag, path)
    case _ => Ok([])
  }

  /** The list overload: the children's results concatenated in order. */
  function FindAll(cs: seq<Json>, tag: string, path: seq<string>): (r: Result<seq<Json>, FindError>)
    ensures r.Err? ==> !r.error.NoMatch?
    decreases cs, 0
  {
    if cs == [] then Ok([])
    else
      match Find(cs[0], tag, path)
      case Err(e) => Err(e)
      case Ok(found) => Prepend(found, FindAll(cs[1..], tag, path))
  }

  /** `_sd_find_one`: the first result, failing when there is none. */
  function FindOne(j: Json, tag: string, path: seq<string>): (r: Result<Json, FindError>)
    ensures r == Err(NoMatch(tag)) <==> Find(j, tag, path) == Ok([])
    ensures r.Ok? <==> Find(j, tag, path).Ok? && Find(j, tag, path).value != []
    ensures r.Ok? ==> r.value == Find(j, tag, path).value[0]
  {
    match Find(j, tag, path)
    case Err(e) => Err(e)
    case Ok(found) => if found == [] then Err(NoMatch(tag)) else Ok(found[0])
  }

  /** Without a key path the search cannot fail, and it returns only tagged dicts. */
  lemma {:induction false} FindReturnsTagged(j: Json, tag: string)
    ensures Find(j, tag, []).Ok?
    ensures forall i :: 0 <= i < |Find(j, tag, []).value| ==> IsTagged(Find(j, tag, []).value[i], tag)
    decreases j, 1
  {
    match j
    case JDict(keys, vals) =>
      if !IsTagged(j, tag) {
        FindAllReturnsTagged(vals, tag);
      }
    case JList(items) =>
      FindAllReturnsTagged(items, tag);
    case _ =>
  }

  lemma {:induction false} FindAllReturnsTagged(cs: seq<Json>, tag: string)
    ensures FindAll(cs, tag, []).Ok?
    ensures forall i :: 0 <= i < |FindAll(cs, tag, []).value| ==> IsTagged(FindAll(cs, tag, []).value[i], tag)
    decreases cs, 0
  {
    if cs != [] {
      FindReturnsTagged(cs[0], tag);
      FindAllReturnsTagged(cs[1..], tag);
    }
  }

  /** `x` is a tagged dict reachable from `j` through untagged dicts and lists
      only: the dicts the search is meant to collect. */
  predicate Exposed(j: Json, tag: string, x: Json)
    decreases j
  {
    if IsTagged(j, tag) then x == j
    else match j
      case JDict(_, vals) => exists k :: 0 <= k < |vals| && Exposed(vals[k], tag, x)
      case JList(items) => exists k :: 0 <= k < |items| && Exposed(items[k], tag, x)
      case _ => false
  }

  /** Without a key path the search returns exactly the exposed tagged dicts. */
  lemma {:induction false} FindExact(j: Json, tag: string, x: Json)
    ensures Find(j, tag, []).Ok?
    ensures x in Find(j, tag, []).value <==> Exposed(j, tag, x)
    decreases j, 1
  {
    FindReturnsTagged(j, tag);
    if !IsTagged(j, tag) {
      match j
      case JDict(keys, vals) => FindAllExact(vals, tag, x);
      case JList(items) => FindAllExact(items, tag, x);
      case _ =>
    }
  }

  lemma {:induction false} FindAllExact(cs: seq<Json>, tag: string, x: Json)
    ensures FindAll(cs, tag, []).Ok?
    ensures x in FindAll(cs, tag, []).value <==> exists k :: 0 <= k < |cs| && Exposed(cs[k], tag, x)
    decreases cs, 0
  {
    FindAllReturnsTagged(cs, tag);
    if cs != [] {
      FindExact(cs[0], tag, x);
      FindAllExact(cs[1..], tag, x);
      assert FindAll(cs, tag, []).value == Find(cs[0], tag, []).value + FindAll(cs[1..], tag, []).value;
      assert forall k :: 1 <= k < |cs| ==> cs[k] == cs[1..][k - 1];
      if exists k :: 0 <= k < |cs| && Exposed(cs[k], tag, x) {
        var k :| 0 <= k < |cs| && Exposed(cs[k], tag, x);
        if k > 0 {
          assert Exposed(cs[1..][k - 1], tag, x);
        }
      }
    }
  }

  /** Searching the children `a + b` finds what `a` finds followed by what `b` finds. */
  lemma {:induction false} FindAllAppend(a: seq<Json>, b: seq<Json>, tag: string, path: seq<string>)
    ensures FindAll(a + b, tag, path) ==
      match FindAll(a, tag, path)
      case Err(e) => Err(e)
      case Ok(found) => Prepend(found, FindAll(b, tag, path))
  {
    if a == [] {
      assert a + b == b;
      match FindAll(b, tag, path)
      case Ok(more) => assert [] + more == more;
      case Err(_) =>
    } else {
      assert (a + b)[1..] == a[1..] + b;
      assert (a + b)[0] == a[0];
      FindAllAppend(a[1..], b, tag, path);
      match Find(a[0], tag, path)
      case Err(_) =>
      case Ok(found) =>
        match FindAll(a[1..], tag, path)
        case Err(_) =>
        case Ok(mid) =>
          match FindAll(b, tag, path)
          case Err(_) =>
          case Ok(more) => assert found + (mid + more) == (found + mid) + more;
    }
  }

  /** The key-path loop of the tagged-dict overload. */
  method Follow(j: Json, path: seq<string>) returns (r: Result<Json, FindError>)
    ensures r == Navigate(j, path)
  {
    var d := j;
    for i := 0 to |path|
      invariant Navigate(j, path) == Navigate(d, path[i..])
    {
      assert path[i..][1..] == path[i + 1..];
      match d {
        case JDict(keys, vals) =>
          match Lookup(keys, vals, path[i]) {
            case None =>
              return Err(KeyMissing(path[i]));
            case Some(v) =>
              d := v;
          }
        case _ =>
          return Err(NotADict(path[i]));
      }
    }
    assert path[|path|..] == [];
    return Ok(d);
  }

  /** `_sd_find`, with the list overload's accumulating loop. */
  method SdFind(j: Json, tag: string, path: seq<string>) returns (r: Result<seq<Json>, FindError>)
    ensures r == Find(j, tag, path)
    decreases j, 1
  {
    match j
    case JDict(keys, vals) =>
      if IsTagged(j, tag) {
        var d := Follow(j, path);
        if d.Err? {
          return Err(d.error);
        }
        return Ok([d.value]);
      }
      r := SdFindList(vals, tag, path);
    case JList(items) =>
      r := SdFindList(items, tag, path);
    case _ =>
      r := Ok([]);
  }

  method SdFindList(li: seq<Json>, tag: string, path: seq<string>) returns (r: Result<seq<Json>, FindError>)
    ensures r == FindAll(li, tag, path)
    decreases li, 0
  {
    var results: seq<Json> := [];
    assert li[0..] == li;
    match FindAll(li, tag, path) {
      case Ok(all) => assert [] + all == all;
      case Err(_) =>
    }
    for i := 0 to |li|
      invariant FindAll(li, tag, path) == Prepend(results, FindAll(li[i..], tag, path))
    {
      assert li[i..][1..] == li[i + 1..];
      var found := SdFind(li[i], tag, path);
      if found.Err? {
        return Err(found.error);
      }
      match FindAll(li[i + 1..], tag, path) {
        case Ok(more) => assert results + (found.value + more) == (results + found.value) + more;
        case Err(_) =>
      }
      results := results + found.value;
    }
    assert li[|li|..] == [];
    assert results + [] == results;
    return Ok(results);
  }

  /** `_sd_find_one`. */
  method SdFindOne(j: Json, tag: string, path: seq<string>) returns (r: Result<Json, FindError>)
    ensures r == FindOne(j, tag, path)
  {
    var found := SdFind(j, tag, path);
    if found.Err? {
      return Err(found.error);
    }
    if found.value == [] {
      return Err(NoMatch(tag));
    }
    return Ok(found.value[0]);
  }
}
