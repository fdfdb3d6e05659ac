/** The PHP control tokens the compiler emits, in PHP's alternative syntax. */
module PhpTokens {
  import opened Options
  import opened Template

  /** Straight-line code: echo, a plugin call, and the prologues and epilogues of loops. */
  datatype Simple =
    | Echo(text: Printer)
    | Run(action: Action)
    | SectionSetup(name: string, args: SectionArgs)
    | ForeachSetup(each: ForeachArgs)
    | UnsetFrom

  /** What an emitted `if` tests: a condition, a section's `show`, or that `$_from` has elements. */
  datatype Test = Holds(cond: Condition) | Shown(section: string) | NonEmpty(loop: Option<string>)

  datatype Token =
    | Do(simple: Simple)
    | OpenIf(test: Test) | OpenElseIf(cond: Condition) | OpenElse | CloseIf
    | OpenFor(section: string) | CloseFor
    | OpenForeach(each: ForeachArgs) | CloseForeach
    | OpenBlock(plugin: string) | CloseBlock(plugin: string)
}
