/**
 * A named route: a trimmed, non-empty name and the matcher it delegates to, either one
 * built beforehand or one parsed from a pattern with the route's options.
 */
module Route {
  import opened Results
  import opened JsText
  import opened PatternCompiler
  import opened RouteMatcher

  /** The second argument of `new Route`: a matcher as is, or anything else to be parsed. */
  datatype MatcherArg = Built(m: RouteMatcher) | Unparsed(url: Input)

  /** Why a route could not be built. */
  datatype RouteError = EmptyName | MatcherError(error: Error)

  /** The options a route hands to `RouteMatcher.parse`, with missing maps made empty. */
  function MatcherOptions(options: Option<Options>): (o: Options)
    ensures o.constraints.Some? && o.coercions.Some?
    ensures options.None? ==> o == Options(false, Some(map[]), Some(map[]))
    ensures options.Some? ==>
      && o.caseInsensitive == options.value.caseInsensitive
      && o.constraints.value == OrElse(options.value.constraints, map[])
      && o.coercions.value == OrElse(options.value.coercions, map[])
  {
    var opts := OrElse(options, Options(false, None, None));
    Options(opts.caseInsensitive, Some(OrElse(opts.constraints, map[])), Some(OrElse(opts.coercions, map[])))
  }

  class Route {
    const name: string
    const matcher: RouteMatcher

    constructor (name: string, matcher: RouteMatcher)
      requires name != []
      ensures this.name == name && this.matcher == matcher
    {
      this.name := name;
      this.matcher := matcher;
    }

    /**
     * `new Route(name, matcher, options)`: the name is trimmed and must not end up empty;
     * a built matcher is kept, anything else is parsed with the route's options and a
     * parse error is passed on.
     */
    static method New(name: string, matcher: MatcherArg, options: Option<Options>)
      returns (r: Result<Route, RouteError>)
      ensures Trim(name) == [] <==> r == Failure(EmptyName)
      ensures r.Success? ==> fresh(r.value) && r.value.name == Trim(name) && r.value.name != []
      ensures Trim(name) != [] && matcher.Built? ==> r.Success? && r.value.matcher == matcher.m
      ensures Trim(name) != [] && matcher.Unparsed? ==>
        var url := matcher.url;
        && (url.NotText? <==> r == Failure(MatcherError(UrlNotString)))
        && (url.Text? && (url.s == [] || url.s[0] != '/') <==> r == Failure(MatcherError(NoLeadingSlash)))
        && (url.Text? && url.s != [] && url.s[0] == '/' ==> r.Success?)
        && (r.Success? ==>
              var o := MatcherOptions(options);
              && fresh(r.value.matcher)
              && r.value.matcher.url == url.s
              && r.value.matcher.regex == Compile(url.s, o.caseInsensitive)
              && r.value.matcher.params == Names(Tokenize(url.s))
              && r.value.matcher.constraints == o.constraints.value
              && r.value.matcher.coercions == o.coercions.value)
    {
      var trimmed := Trim(name);
      if trimmed == [] {
        return Failure(EmptyName);
      }
      var m: RouteMatcher;
      match matcher {
        case Built(built) =>
          m := built;
        case Unparsed(url) =>
          var parsed := RouteMatcher.Parse(url, Some(MatcherOptions(options)));
          if parsed.Failure? {
            return Failure(MatcherError(parsed.error));
          }
          m := parsed.value;
      }
      var route := new Route(trimmed, m);
      return Success(route);
    }

    /** `getMatch(url)`: whatever the matcher answers. */
    method GetMatch(url: string) returns (r: Option<map<string, RouteParam>>)
      ensures r == Outcome(matcher.regex, matcher.params, matcher.constraints, matcher.coercions, url)
    {
      r := matcher.GetMatch(url);
    }
  }
}
