# Propositional-logic front end, modelled in Dafny

`proyecto.py` reads propositional formulas written with the variables `p`..`z`, the constants `0` and `1`,
negation `~`, conjunction `^`, disjunction `o`, implication `=>`, biconditional `<=>` and parentheses.
The program has three stages:

- a PLY tokenizer that skips blanks and reports each illegal character;
- a PLY grammar whose precedence table resolves the ambiguous `formula` rules into a syntax tree of `Node`s;
- `generate_syntax_tree`, which exports the tree as labelled nodes and parent-to-child edges.

This project models those three stages and proves what they promise.

- `tokens.dfy` (module `Tokens`) holds the token kinds, their spellings and the precedence levels of the connectives.
- `lexer.dfy` (module `Lexer`) holds the tokenizer:
  - the reference definition is `MatchAt`/`LexFrom`/`Lex`;
  - the class `Lexer` has the `NextToken` method;
  - `Tokenize` is the loop that drains it.
- `ast.dfy` (module `Ast`) holds the syntax tree. A `Node` whose type and value say what it is becomes one constructor of `Formula`.
- `parser.dfy` (module `Parser`) holds the grammar engine. It is written as precedence climbing:
  - one level per row of the precedence table, all binary levels left-associative;
  - negation as a right-associative prefix that binds tightest;
  - parentheses that return their inner tree unchanged.
- `parser_lemmas.dfy` (module `ParserLemmas`) holds the unfolding lemmas of the engine.
- `grammar.dfy` (module `Grammar`) states the grammar itself as the relation `Derives`, with all its ambiguity. It proves that every tree the engine returns is derivable from the input.
- `recognizer.dfy` (module `Recognizer`) is a left-to-right automaton that tracks only whether an operand is expected and how many parentheses are open. It proves that the engine succeeds exactly where the automaton accepts, and fails at exactly the token where the automaton gets stuck.
- `completeness.dfy` (module `Completeness`) uses the automaton to prove the converse of soundness. The engine accepts exactly the derivable token sequences. A syntax error names the first token that no derivable sequence continues with, or the end of an input that is an unfinished formula.
- `precedence.dfy` (module `Precedence`) states the grammar with the precedence table built in: one rule per row of the table, each left-associative, then negation, operands and parentheses. This grammar gives a token sequence at most one tree. It proves that the engine returns a tree for a token sequence exactly when this grammar derives that tree from it, so the table fixes which of the ambiguous grammar's trees PLY builds, for every input.
- `printer.dfy` (module `Printer`) prints a tree back to tokens and text, with minimal or full parentheses. It proves that parsing the printout gives the tree back.
- `export.dfy` (module `Export`) holds the export:
  - the class `SyntaxGraph` plays the role of the Graphviz `Digraph`;
  - `AddTree` is the recursive walk;
  - `ExportTree` is the pre-order graph it builds.
- `wiring.dfy` (module `Wiring`) says where the export's edges go: child `i` of a node is listed after the node and the subtrees of the children before it, and the edge that enters it leaves that node.
- `scenarios.dfy` (module `Scenarios`) holds the expressions of `main`'s list worked through the whole front end, plus a blanks example.

## Model

| member | source | states |
|---|---|---|
| Tokens.Spelling | proyecto.py:6-19 | each token kind has one fixed lexeme of 1 to 3 non-blank characters; a variable is one letter `p`..`z`, a constant is `0` or `1` |
| Tokens.Level | proyecto.py:33-39 | the four binary connectives get distinct levels 1..4 in the table's order, from `<=>` (loosest) to `^` (tightest) |
| Tokens.Kinds | proyecto.py:142-148 | the kinds of a token list are the kinds of its tokens, position by position |
| Lexer.SpelledAtSlice | proyecto.py:11-19 | a token kind matches at a position exactly when its lexeme occurs there as a slice of the input |
| Lexer.MatchAt | proyecto.py:11-27 | one scan step: a blank is ignored; otherwise a token whose lexeme matches at that position, of that lexeme's width; otherwise an illegal character that no token matches |
| Lexer.MatchUnique | proyecto.py:11-19 | the token patterns do not overlap: whenever a kind's lexeme matches, the scanner picks that kind |
| Lexer.Advance | proyecto.py:11-27 | one scanning step always moves forward and stays within the input |
| Lexer.AdvanceSkips | proyecto.py:11-27 | a step over a token moves past exactly its lexeme; a step over a blank or an illegal character (`skip(1)`) moves by one character |
| Lexer.LexFrom | proyecto.py:11-27 | tokenizing from an offset reports errors only at offsets from there to the end of the input |
| Lexer.LexFromCount | proyecto.py:11-27 | from an offset on, each character yields at most one token or one error |
| Lexer.Lex | proyecto.py:11-27 | the whole input yields at most as many tokens and errors together as it has characters |
| Lexer.LexSound | proyecto.py:22-27 | every token emitted is spelled at its position; every error is an illegal, non-blank character at its position; tokens and errors come in input order without overlap |
| Lexer.LexSkipsBlank | proyecto.py:22 | a space or tab produces neither a token nor an error |
| Lexer.LexSkipsIllegal | proyecto.py:25-27 | an illegal character produces exactly one error record and scanning resumes one character later |
| Lexer.LexEmits | proyecto.py:11-19 | a matching lexeme produces its token and scanning resumes after the lexeme |
| Lexer.KeptSkip | proyecto.py:22-27 | a skipped blank or illegal character leaves the rest of the input's kept text unchanged |
| Lexer.KeptToken | proyecto.py:11-19 | a matched lexeme fits in the input and is kept in the text the tokens spell |
| Lexer.LexKeepsText | proyecto.py:11-27 | the tokens' lexemes, concatenated, are exactly the input with blanks and illegal characters removed |
| Lexer.LexRender | proyecto.py:11-19 | tokenizing the concatenated lexemes of any kind list gives back that kind list and no error |
| Lexer.Lexer.NextToken | proyecto.py:144-147 | returns the next token of the reference scan `LexFrom` and records the errors met on the way; returns nothing exactly at the end of the input |
| Lexer.Tokenize | proyecto.py:142-148 | the loop that drains the lexer collects exactly the tokens and errors of `Lex` |
| Parser.ParseLevel | proyecto.py:33-39 | parsing one precedence level consumes at least one token; a failure is located at a token of the input or at its end |
| Parser.ParseTail | proyecto.py:63-68 | the left-associative operator chain of one level consumes no more than its input; a failure is located within the input |
| Parser.ParseUnary | proyecto.py:51-61 | a variable, constant, negation or parenthesised formula consumes at least one token; a failure is located within the input |
| Parser.Parse | proyecto.py:74-78 | a syntax error names a token inside the input, counted from the end, or the end of the input; which token it is, is stated by `Completeness.ErrorAtFirstBadToken` |
| Parser.ParseTokens | proyecto.py:74-78 | the token-level parse succeeds exactly when the kind-level parse does, with the same tree; a kind-level error `n` tokens from the end is reported with the token `ts[|ts| - n]`; the end of the input is reported exactly when the kind-level parse failed at the end |
| Parser.ParseString | proyecto.py:159 | parsing text tokenizes it first, skipping the characters the tokenizer rejects; a syntax error always names a token read from the input and spelled at its position |
| ParserLemmas.LevelLift | proyecto.py:33-39 | a formula parsed at a tighter level, followed by no operator of any looser level, parses the same at every looser level |
| ParserLemmas.ParenTransparent | proyecto.py:70-72 | wrapping a parsable token list in parentheses gives the same tree |
| Grammar.ParseSound | proyecto.py:51-72 | every tree the engine returns is derivable from the whole token list by the grammar's rules |
| Precedence.PrecParse | proyecto.py:33-72 | a derivation of a tree at one precedence level, followed by input no tighter connective starts, is read as that tree, and the engine continues with that level's connective loop |
| Precedence.PrecUnary | proyecto.py:51-61 | a derivation at the negation level (operand, negation or parenthesised formula) is read back as exactly that tree, whatever follows |
| Precedence.PrecLevelSound | proyecto.py:33-72 | what the engine reads at one precedence level is derived at that level from the tokens it consumed, and the rest is the remaining input |
| Precedence.ParsePrecedence | proyecto.py:33-78 | for every token sequence, the engine returns tree `f` exactly when the grammar of the precedence table derives `f` from the whole sequence |
| Precedence.PrecUnambiguous | proyecto.py:33-39 | the grammar of the precedence table derives at most one tree from a token sequence |
| Precedence.PrecRefines | proyecto.py:51-72 | every tree the precedence-table grammar derives, the eight productions as written derive too |
| Recognizer.StuckPrefix | proyecto.py:74-76 | where the automaton gets stuck, it has read everything before that token and refuses the token itself |
| Recognizer.ParseRun | proyecto.py:74-78 | the engine accepts exactly what the automaton accepts; where the automaton gets stuck the engine fails at that same token; the engine fails at the end exactly when the automaton reads all the input without reaching acceptance |
| Completeness.DerivesRun | proyecto.py:51-72 | every derivation by the grammar's rules takes the automaton from expecting an operand to just after one, at the same parenthesis depth |
| Completeness.ParseComplete | proyecto.py:51-72 | the engine accepts every token sequence the grammar derives |
| Completeness.ParseExactlyDerivable | proyecto.py:51-72 | the engine accepts a token sequence exactly when the grammar derives it |
| Completeness.ErrorAtFirstBadToken | proyecto.py:74-76 | a syntax error at a token `n` from the end names the first token that no derivable sequence continues with: the tokens before it begin some formula, and with it they begin none |
| Completeness.ErrorAtEnd | proyecto.py:77-78 | a syntax error at the end of the input means the input begins some formula but is not one |
| Printer.ShowRoundTrip | proyecto.py:33-39 | every tree printed with minimal parentheses parses back to itself, so precedence and left associativity decide the grouping |
| Printer.FullRoundTrip | proyecto.py:70-72 | every tree printed fully parenthesised parses back to itself |
| Printer.ReparseFull | proyecto.py:51-72 | parsing, printing fully parenthesised and parsing again gives the first result |
| Printer.TextRoundTrip | proyecto.py:11-39 | the text of a minimal-parenthesis printout tokenizes and parses back to the tree |
| Printer.FullTextRoundTrip | proyecto.py:11-72 | the text of a fully parenthesised printout tokenizes and parses back to the tree |
| Printer.PrecedenceOrder | proyecto.py:33-37 | in `a o1 b o2 c` the tighter connective groups first, and on equal levels the left one does (left associativity) |
| Printer.GroupsRight | proyecto.py:33-37 | when `o2` binds tighter than `o1`, `a o1 b o2 c` is `a o1 (b o2 c)` |
| Printer.GroupsLeft | proyecto.py:33-37 | when `o1` binds at least as tightly as `o2`, `a o1 b o2 c` is `(a o1 b) o2 c` |
| Printer.NotBindsTightest | proyecto.py:38 | `~a o b` is `(~a) o b` for every binary connective `o` |
| Ast.LabelLexeme | proyecto.py:89-92 | a node's label is its value: the lexeme of the token the node was built from, a letter, a bit or an operator symbol |
| Ast.Children | proyecto.py:42-48 | a node has as many children as its arity, each strictly smaller than the node |
| Export.ExportTree | proyecto.py:84-100 | the exported graph of a tree has one node per tree node and one edge fewer |
| Export.ExportForest | proyecto.py:96-98 | the loop over a node's children adds one edge per node: each child's graph plus the edge that leads to it |
| Export.TreeForest | proyecto.py:94-98 | a tree exports as its own node followed by its children's exports in order, each child preceded by the edge from this node |
| Export.TreeNumbering | proyecto.py:94-98 | node k gets identifier base + k, and edge j points from an earlier node to node base + 1 + j, so each child is emitted right after its edge |
| Export.ExportLabels | proyecto.py:89-94 | the node at pre-order position k is labelled with the letter, bit or operator of the k-th sub-tree in pre-order |
| Export.ExportDegrees | proyecto.py:96-97 | every node has as many outgoing edges as its tree node has children |
| Wiring.ExportWiring | proyecto.py:96-97 | for every node at pre-order position k and its child i, the child's subtree is listed at k + 1 + the sizes of the children before it, and the edge entering that node leaves node k |
| Wiring.WiringSample | proyecto.py:94-98 | the export of `(p o q) ^ r` has edges 0→1, 1→2, 1→3, 0→4, and the list with 1→4 in place of 0→4 is not wired to that tree |
| Export.Preorder | proyecto.py:94-98 | the pre-order listing has one entry per tree node and starts with the root |
| Export.SyntaxGraph.AddTree | proyecto.py:84-100 | the walk appends exactly the pre-order export of the tree, numbered from the current node count, to the graph's nodes and edges |
| Export.GenerateSyntaxTree | proyecto.py:84-100 | exporting a tree into a fresh graph gives its pre-order export, with one node per tree node and one edge fewer |
| Scenarios.SampleVar | proyecto.py:126 | `p` parses to the variable `p` |
| Scenarios.SampleNot | proyecto.py:127 | `~q` parses to the negation of `q` |
| Scenarios.SampleAnd | proyecto.py:128 | `(p^q)` parses to `p ^ q` |
| Scenarios.SampleImplies | proyecto.py:129 | `(0=>(ros))` parses to `0 => (r o s)` |
| Scenarios.SampleLeadingConnective | proyecto.py:130 | `^(p^q)` has no lexical error and is rejected with a syntax error at the `^` at position 0 |
| Scenarios.SampleBicond | proyecto.py:131 | `(p<=>~p)` parses to `p <=> ~p` |
| Scenarios.SampleNested | proyecto.py:132 | `((p=>q)^p)` parses to `(p => q) ^ p` |
| Scenarios.SampleIllegalCharacter | proyecto.py:133 | `(*(p^(qor))os)` reports one illegal `*` at position 1 and, skipping it, parses to `(p ^ (q o r)) o s` |
| Scenarios.SampleBlanks | proyecto.py:22 | `p o<tab>q ^ r` ignores the blanks and parses to `p o (q ^ r)` |
| Scenarios.SampleExport | proyecto.py:84-100 | exporting `p ^ q` gives nodes `^`, `p`, `q` numbered 0, 1, 2 and edges 0→1, 0→2 |

## Left out

- Rendering to an image: the Graphviz `Digraph`, the circle shape attribute and the files it writes are an external collaborator. `SyntaxGraph` keeps only the nodes and edges.
- `generate_afn` (proyecto.py:103-121) draws a linear chain of states and writes an image. It is not part of this model.
- `main` (proyecto.py:124 onward) walks a fixed list of expressions. It is not modelled as a procedure: its loop over the list, its printing, its `try`/`except` and its file names are left out. Its expressions appear as lemmas in `Scenarios`.
- The messages printed by `t_error` and `p_error` are not modelled. The model returns the same information as data: the illegal character and its position, or the offending token or the end of the input.
- PLY's LALR tables are not modelled. The grammar engine is precedence climbing, and `Completeness.ParseExactlyDerivable` shows that it accepts the same token sequences as the grammar.
- PLY's error recovery is not modelled. After PLY calls `p_error`, it discards tokens and goes on parsing. The model stops at the first syntax error and returns no tree, only the single diagnostic.
- Scenarios.SampleLeadingConnective: for `^(p^q)` (proyecto.py:130) the model reports the syntax error at the `^` at position 0 and returns no tree. PLY calls `p_error` at that `^` and then drops it. It parses `(p^q)` and returns the complete tree of `p ^ q`. So `main` prints "Expresión VÁLIDA" after the syntax-error message and renders that tree. The model does not reproduce this.
- Grammar.ParseSound: it states only that the returned tree is derivable. The grammar is ambiguous, and this lemma does not say which of the derivable trees is PLY's. That is fixed for every input by `Precedence.ParsePrecedence`: the engine returns exactly the one tree the precedence-table grammar derives. The converse of this lemma, that every derivable input is accepted, is `Completeness.ParseComplete`.
- Printer.ShowRoundTrip: it covers only the printer's own output, with minimal parentheses. Texts with redundant parentheses, such as `(p) o q ^ r`, are covered by `Precedence.ParsePrecedence`.
- `id(node)` is replaced by a pre-order counter. Graphviz identifiers are memory addresses, which only need to be distinct; the counter gives distinct identifiers with a fixed order.
- The module-level `lexer` and `parser` objects, shared between calls, are not modelled. Each call starts from a fresh `Lexer` or graph.
