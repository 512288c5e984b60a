/** Constants of the converter: paths, executables, service types, the unit-name
    synonym table, message templates and the script header. */
module Consts {
  import opened Text
  import opened Wrappers

  const RUN_D: string := "/run"

  const START_STOP_DAEMON: string := "start-stop-daemon"
  const DBUS_SERVICE_WAIT: string := "dbus-service-wait"
  const EBEGIN: string := "ebegin"
  const EEND: string := "eend"

  const ST_SIMPLE: string := "simple"
  const ST_FORKING: string := "forking"
  const ST_ONESHOT: string := "oneshot"
  const ST_DBUS: string := "dbus"

  /** Service types systemd accepts in a unit. */
  const SYSTEMD_SERVICE_TYPES: set<string> := {ST_SIMPLE, ST_FORKING, ST_ONESHOT, ST_DBUS}
  /** Service types an OpenRC script can express. */
  const RC_SERVICE_TYPES: set<string> := {ST_SIMPLE, ST_FORKING, ST_DBUS}

  /** Unit names whose OpenRC counterpart is not obtained by stripping a suffix. */
  const UNIT_NAMES_DICT: map<string, string> := map[
    "network.target" := "net",
    "nss-lookup.target" := "net",
    "local-fs.target" := "localmount",
    "remote-fs.target" := "netmount",
    "network-online.target" := "net-online",
    "dbus.socket" := "dbus"
  ]

  /** The `%s '%s'` tail shared by both message templates. */
  const MESSAGE_ARGS: string := "%s '%s'"
  const STARTING: string := "Starting " + MESSAGE_ARGS
  const STOPPING: string := "Stopping " + MESSAGE_ARGS

  /** Python's `template % args` for templates whose only directives are `%s` and
      `%%`; `None` is the TypeError Python raises when the argument count does not
      match the directives or a directive is unsupported. */
  function Percent(template: string, args: seq<string>): (r: Option<string>)
    decreases |template|
  {
    if |template| == 0 then
      if |args| == 0 then Some("") else None
    else if template[0] != '%' then
      var rest :- Percent(template[1..], args);
      Some([template[0]] + rest)
    else if |template| >= 2 && template[1] == '%' then
      var rest :- Percent(template[2..], args);
      Some("%" + rest)
    else if |template| >= 2 && template[1] == 's' && |args| > 0 then
      var rest :- Percent(template[2..], args[1..]);
      Some(args[0] + rest)
    else None
  }

  /** Number of `%s` directives in a template. */
  function Directives(template: string): nat
    decreases |template|
  {
    if |template| < 2 then 0
    else if template[0] == '%' && template[1] == 's' then 1 + Directives(template[2..])
    else if template[0] == '%' && template[1] == '%' then Directives(template[2..])
    else Directives(template[1..])
  }

  /** `RC_HEADER % dict(source_file_name=..., unit2openrc="Unit2OpenRC")`. */
  function RcHeader(sourceFileName: string): string
  {
    SHEBANG + "# This file was auto-generated from " + sourceFileName + HEADER_END
  }

  const SHEBANG: string := "#!/usr/bin/openrc-run\n"
  const HEADER_END: string := "\n# by Unit2OpenRC.\n\n"

  /** OpenRC types are exactly the systemd types without `oneshot`. */
  lemma RcTypesAreSystemdMinusOneshot()
    ensures RC_SERVICE_TYPES == SYSTEMD_SERVICE_TYPES - {ST_ONESHOT}
    ensures ST_ONESHOT in SYSTEMD_SERVICE_TYPES && ST_ONESHOT !in RC_SERVICE_TYPES
  {
    assert ST_ONESHOT != ST_SIMPLE && ST_ONESHOT != ST_FORKING && ST_ONESHOT != ST_DBUS;
  }

  /** No synonym is empty, so a table hit is never filtered out as "ignored". */
  lemma UnitNamesNonEmpty()
    ensures forall k :: k in UNIT_NAMES_DICT ==> |UNIT_NAMES_DICT[k]| > 0
  {
  }

  /** Text without `%` passes through the formatter unchanged. */
  lemma {:induction false} PercentPlain(p: string, rest: string, args: seq<string>)
    requires '%' !in p
    ensures Percent(p + rest, args)
      == (if Percent(rest, args).Some? then Some(p + Percent(rest, args).value) else None)
    ensures Directives(p + rest) == Directives(rest)
    decreases |p|
  {
    if |p| > 0 {
      assert (p + rest)[1..] == p[1..] + rest;
      assert (p + rest)[0] == p[0];
      PercentPlain(p[1..], rest, args);
      assert [p[0]] + p[1..] == p;
      if Percent(rest, args).Some? {
        assert [p[0]] + (p[1..] + Percent(rest, args).value) == p + Percent(rest, args).value;
      }
    } else {
      assert p + rest == rest;
      if Percent(rest, args).Some? {
        assert p + Percent(rest, args).value == Percent(rest, args).value;
      }
    }
  }

  /** A `%s` directive consumes the next argument. */
  lemma PercentDirective(rest: string, a: string, args: seq<string>)
    ensures Percent("%s" + rest, [a] + args)
      == (if Percent(rest, args).Some? then Some(a + Percent(rest, args).value) else None)
    ensures Percent("%s" + rest, []) == None
    ensures Directives("%s" + rest) == 1 + Directives(rest)
  {
    assert ("%s" + rest)[2..] == rest;
    assert ([a] + args)[1..] == args;
  }

  /** The part of both templates after the verb. */
  lemma TemplateTail(description: string, shortname: string)
    ensures Percent(MESSAGE_ARGS, [description, shortname])
      == Some(description + " '" + shortname + "'")
    ensures Percent(MESSAGE_ARGS, [description]) == None
    ensures Directives(MESSAGE_ARGS) == 2
  {
    var e: seq<string> := [];
    assert Percent("", e) == Some("");
    assert Directives("") == 0;
    PercentPlain("'", "", e);
    assert "'" + "" == "'";
    PercentDirective("'", shortname, e);
    assert [shortname] + e == [shortname];
    assert "%s" + "'" == "%s'";
    assert Percent("'", e) == Some("'");
    assert Percent("%s" + "'", [shortname] + e) == Some(shortname + "'");
    assert Percent("%s'", [shortname]) == Some(shortname + "'");
    PercentPlain(" '", "%s'", [shortname]);
    PercentPlain(" '", "%s'", e);
    assert " '" + "%s'" == " '%s'";
    PercentDirective(" '%s'", description, [shortname]);
    PercentDirective(" '%s'", description, e);
    assert [description] + [shortname] == [description, shortname];
    assert [description] + e == [description];
    assert "%s" + " '%s'" == MESSAGE_ARGS;
    assert Percent(" '%s'", [shortname]) == Some(" '" + (shortname + "'"));
    assert Percent(MESSAGE_ARGS, [description, shortname])
      == Some(description + (" '" + (shortname + "'")));
    assert description + (" '" + (shortname + "'")) == description + " '" + shortname + "'";
  }

  /** STARTING takes exactly two substitutions: the description first, then the
      short name. */
  lemma StartingTemplate(description: string, shortname: string)
    ensures Directives(STARTING) == 2
    ensures Percent(STARTING, [description, shortname])
      == Some("Starting " + description + " '" + shortname + "'")
    ensures Percent(STARTING, [description]) == None
  {
    TemplateTail(description, shortname);
    PercentPlain("Starting ", MESSAGE_ARGS, [description, shortname]);
    PercentPlain("Starting ", MESSAGE_ARGS, [description]);
    assert "Starting " + (description + " '" + shortname + "'")
      == "Starting " + description + " '" + shortname + "'";
  }

  /** STOPPING takes exactly two substitutions: the description first, then the
      short name. */
  lemma StoppingTemplate(description: string, shortname: string)
    ensures Directives(STOPPING) == 2
    ensures Percent(STOPPING, [description, shortname])
      == Some("Stopping " + description + " '" + shortname + "'")
    ensures Percent(STOPPING, [description]) == None
  {
    TemplateTail(description, shortname);
    PercentPlain("Stopping ", MESSAGE_ARGS, [description, shortname]);
    PercentPlain("Stopping ", MESSAGE_ARGS, [description]);
    assert "Stopping " + (description + " '" + shortname + "'")
      == "Stopping " + description + " '" + shortname + "'";
  }

  /** The header is a shebang for openrc-run followed by two comment lines and a
      blank line. */
  lemma HeaderShape(sourceFileName: string)
    ensures StartsWith(RcHeader(sourceFileName), "#!/usr/bin/openrc-run\n")
    ensures EndsWith(RcHeader(sourceFileName), "\n# by Unit2OpenRC.\n\n")
  {
    ConcatEnds(SHEBANG, "# This file was auto-generated from " + sourceFileName + HEADER_END);
    ConcatEnds(SHEBANG + "# This file was auto-generated from " + sourceFileName, HEADER_END);
    assert SHEBANG + "# This file was auto-generated from " + sourceFileName + HEADER_END
      == SHEBANG + ("# This file was auto-generated from " + sourceFileName + HEADER_END);
  }
}
