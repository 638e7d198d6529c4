/** The HTTP methods a route can be configured with. Their printed name is
    the upper-cased variant name, which is also their configuration
    spelling. */
module Methods {
  import opened Base

  datatype Method = Get | Post | Put | Patch | Delete | Head | Options

  /** `to_string`: the variant's debug name, upper-cased. */
  function ToString(m: Method): (s: string)
    ensures |s| >= 3 && forall i :: 0 <= i < |s| ==> 'A' <= s[i] <= 'Z'
  {
    match m
    case Get => "GET"
    case Post => "POST"
    case Put => "PUT"
    case Patch => "PATCH"
    case Delete => "DELETE"
    case Head => "HEAD"
    case Options => "OPTIONS"
  }

  /** Reading a configured method by its wire name (`rename_all =
      "UPPERCASE"`); other text is not a method. */
  function Parse(s: string): (r: Option<Method>)
    ensures r.Some? ==> ToString(r.value) == s
  {
    if s == "GET" then Some(Get)
    else if s == "POST" then Some(Post)
    else if s == "PUT" then Some(Put)
    else if s == "PATCH" then Some(Patch)
    else if s == "DELETE" then Some(Delete)
    else if s == "HEAD" then Some(Head)
    else if s == "OPTIONS" then Some(Options)
    else None
  }

  /** The printed name is the wire name: parsing it gives the method back. */
  lemma ParseToString(m: Method)
    ensures Parse(ToString(m)) == Some(m)
  {
  }

  /** Different methods print differently. */
  lemma ToStringInjective(m: Method, n: Method)
    requires ToString(m) == ToString(n)
    ensures m == n
  {
    ParseToString(m);
    ParseToString(n);
  }

  /** A printed name is never empty and holds no comma, so a comma-joined
      list of them can be split back apart. */
  lemma NameHasNoComma(m: Method)
    ensures ToString(m) != "" && ',' !in ToString(m)
  {
  }

  /** The printed names of a list of methods, in order. */
  function Names(ms: seq<Method>): (ns: seq<string>)
    ensures |ns| == |ms|
    ensures forall i :: 0 <= i < |ms| ==> ns[i] == ToString(ms[i])
  {
    if ms == [] then [] else [ToString(ms[0])] + Names(ms[1..])
  }
}
