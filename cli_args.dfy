/** The parsed command line of the test runner, as argparse delivers it. */
module CliArgs {
  import opened Wrappers

  /**
   * lineNums holds one list per --line-nums argument, each already expanded
   * by parse_line_nums; the empty sequence stands for the option not given.
   * protocols is the empty sequence when --protocols is not given.
   * dnsServer is None when --dns-server is not given.
   */
  datatype Args = Args(
    target: string,
    username: string,
    password: string,
    kerberos: bool,
    verbose: bool,
    errors: bool,
    poetry: bool,
    protocols: seq<string>,
    lineNums: seq<seq<int>>,
    printFailures: bool,
    testUserFile: string,
    testPasswordFile: string,
    dnsServer: Option<string>)
}
