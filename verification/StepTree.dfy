// The step tree of a workflow body and the lines it is written on.
//
// A line is what the block parser sees after trimming: the kinds below are the cases its
// loop distinguishes. A statement that fits on one line is opaque; only whether its text
// ends in `{` matters to the block structure.
module StepTree {

  datatype Clause = Catch | Recover

  datatype Line =
    | Empty
    | Note(text: string)                    // starts with `#`
    | Close                                 // exactly `}`
    | ElseArm                               // `} else {`
    | ElseIfArm(cond: string)               // `} else if <cond> {`
    | StrayElse(text: string)               // `} else` followed by anything else
    | IfHead(cond: string)                  // `if <cond> {`
    | ForHead(iterVar: string, source: string)
    | Host(call: string, clause: Clause, failure: string)  // `run f() catch (e) {`
    | Stmt(text: string)                    // any other statement accepted on one line
    | Rejected(text: string)                // a statement the leaf parser refuses

  // `line.trim().endsWith("{")`
  predicate EndsInBrace(l: Line) {
    match l
    case Empty => false
    case Close => false
    case Note(t) => EndsWithBrace(t)
    case StrayElse(t) => EndsWithBrace(t)
    case Stmt(t) => EndsWithBrace(t)
    case Rejected(t) => EndsWithBrace(t)
    case _ => true
  }

  predicate EndsWithBrace(t: string) {
    |t| > 0 && t[|t| - 1] == '{'
  }

  // The three spellings that begin with `} else`.
  predicate ElseLike(l: Line) {
    l.ElseArm? || l.ElseIfArm? || l.StrayElse?
  }

  datatype Step =
    | Comment(text: string)
    | Blank
    | Leaf(line: Line)                      // kept as the line it was read from
    | If(cond: string, body: seq<Step>, elseBody: ElsePart)
    | For(iterVar: string, source: string, body: seq<Step>)
    | Attached(call: string, clause: Clause, failure: string, block: seq<Step>)

  datatype ElsePart = NoElse | Else(steps: seq<Step>)

  // Options a block is parsed under: keep blank lines as steps, and let `} else` close it.
  datatype Opts = Opts(keepBlanks: bool, elseCloses: bool)

  const THEN_BODY := Opts(false, true)
  const PLAIN := Opts(false, false)
  const WORKFLOW := Opts(true, false)
}
