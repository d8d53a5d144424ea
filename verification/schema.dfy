/** The five tables created at startup, the column types they impose, and the
    integrity invariant (NOT NULL, UNIQUE email, primary keys, foreign keys)
    every reachable store satisfies.

    Columns typed INTEGER are 32-bit; VARCHAR(n) columns hold at most `n`
    characters (longer text is accepted only when the excess is spaces, which
    are cut off); DATE columns hold `YYYY-MM-DD` text. NOT NULL columns are plain
    (non-`Option`) fields of the row datatypes. */
module Schema {
  import opened Wrappers

  const MinInt32: int := -0x8000_0000
  const MaxInt32: int := 0x7FFF_FFFF

  /** Width of the VARCHAR columns. */
  const NomeMax: nat := 255
  const EmailMax: nat := 255
  const TelefoneMax: nat := 20

  /** A value of the INTEGER column type. */
  predicate IsInt32(x: int) {
    MinInt32 <= x <= MaxInt32
  }

  predicate IsDigit(c: char) {
    '0' <= c <= '9'
  }

  /** Text accepted as a DATE: `YYYY-MM-DD`, the form a date input submits. */
  predicate IsDateText(s: string) {
    && |s| == 10
    && s[4] == '-' && s[7] == '-'
    && forall i :: 0 <= i < 10 && i != 4 && i != 7 ==> IsDigit(s[i])
  }

  /** A nullable INTEGER value. */
  predicate IntOk(x: Option<int>) {
    x.None? || IsInt32(x.value)
  }

  /** A nullable DATE value. */
  predicate DateOk(x: Option<string>) {
    x.None? || IsDateText(x.value)
  }

  /** A nullable text value the database can bind: PostgreSQL text never
      holds the NUL character, and a parameter carrying one is refused
      (SQLSTATE 22021). */
  predicate TextOk(x: Option<string>) {
    x.None? || '\0' !in x.value
  }

  /** A nullable TEXT[] value the database can bind. */
  predicate TextArrayOk(x: Option<seq<string>>) {
    x.None? || forall i :: 0 <= i < |x.value| ==> '\0' !in x.value[i]
  }

  /** Text made of spaces only. */
  predicate AllSpaces(t: string) {
    forall i :: 0 <= i < |t| ==> t[i] == ' '
  }

  /** A nullable value a VARCHAR(n) column accepts: at most `n` characters,
      or longer when every character past the `n`th is a space (section 8.3
      of the PostgreSQL manual). */
  predicate VarcharOk(x: Option<string>, n: nat) {
    x.None? || |x.value| <= n || AllSpaces(x.value[n..])
  }

  /** A nullable value as a VARCHAR(n) column stores it. */
  predicate WithinWidth(x: Option<string>, n: nat) {
    x.None? || |x.value| <= n
  }

  /** The text a VARCHAR(n) column stores for accepted text: the excess
      spaces are cut off and nothing else is lost. */
  function Clip(t: string, n: nat): (r: string)
    ensures |r| <= n && r <= t
    ensures |t| <= n ==> r == t
    ensures VarcharOk(Some(t), n) ==> AllSpaces(t[|r|..])
  {
    if |t| <= n then t else t[..n]
  }

  /** `Clip` on a nullable value; null stays null. */
  function ClipNullable(x: Option<string>, n: nat): (r: Option<string>)
    ensures WithinWidth(r, n)
    ensures r.None? <==> x.None?
    ensures x.Some? ==> r.value == Clip(x.value, n)
  {
    if x.None? then None else Some(Clip(x.value, n))
  }

  /** A row as the database returns it: its SERIAL id and its columns. */
  datatype Row<R> = Row(id: int, fields: R)

  datatype Curso = Curso(
    nome: string,
    descricao: Option<string>,
    dataInicio: Option<string>,
    dataFim: Option<string>,
    cargaHoraria: Option<int>)

  datatype Voluntario = Voluntario(
    nome: string,
    email: string,
    telefone: Option<string>,
    endereco: Option<string>,
    habilidades: Option<seq<string>>,
    disponibilidade: Option<string>)

  datatype Aluno = Aluno(
    nome: string,
    email: string,
    telefone: Option<string>,
    endereco: Option<string>,
    dataNascimento: Option<string>,
    cursoId: Option<int>)

  datatype Turma = Turma(
    nome: string,
    cursoId: int,
    voluntarioId: Option<int>,
    dataInicio: Option<string>,
    dataFim: Option<string>)

  /** The record store. `turmaAlunos` is the join table keyed by the pair
      (turma id, aluno id); each `next…Id` is the value the table's SERIAL
      sequence hands out next. */
  datatype Store = Store(
    cursos: map<int, Curso>,
    voluntarios: map<int, Voluntario>,
    alunos: map<int, Aluno>,
    turmas: map<int, Turma>,
    turmaAlunos: set<(int, int)>,
    nextCursoId: int,
    nextVoluntarioId: int,
    nextAlunoId: int,
    nextTurmaId: int)

  /** The store right after the tables are created. */
  const Empty: Store := Store(map[], map[], map[], map[], {}, 1, 1, 1, 1)

  /** The five tables agree; sequence positions may differ, because a
      sequence is not rolled back with the transaction that advanced it. */
  predicate SameTables(a: Store, b: Store) {
    && a.cursos == b.cursos
    && a.voluntarios == b.voluntarios
    && a.alunos == b.alunos
    && a.turmas == b.turmas
    && a.turmaAlunos == b.turmaAlunos
  }

  /** A sequence hands out at most one value per statement, and none past
      the INTEGER range. */
  predicate CounterStep(before: int, after: int) {
    after == before || (before <= MaxInt32 && after == before + 1)
  }

  /** Each of the four sequences takes at most one step from `a` to `b`. */
  predicate SequencesStep(a: Store, b: Store) {
    && CounterStep(a.nextCursoId, b.nextCursoId)
    && CounterStep(a.nextVoluntarioId, b.nextVoluntarioId)
    && CounterStep(a.nextAlunoId, b.nextAlunoId)
    && CounterStep(a.nextTurmaId, b.nextTurmaId)
  }

  /** The ids of the students on a section's roster. */
  function Roster(s: Store, turmaId: int): set<int> {
    set p | p in s.turmaAlunos && p.0 == turmaId :: p.1
  }

  predicate CursoFits(c: Curso) {
    |c.nome| <= NomeMax && DateOk(c.dataInicio) && DateOk(c.dataFim) && IntOk(c.cargaHoraria)
  }

  predicate VoluntarioFits(v: Voluntario) {
    |v.nome| <= NomeMax && |v.email| <= EmailMax && WithinWidth(v.telefone, TelefoneMax)
  }

  predicate AlunoFits(a: Aluno) {
    && |a.nome| <= NomeMax && |a.email| <= EmailMax && WithinWidth(a.telefone, TelefoneMax)
    && DateOk(a.dataNascimento) && IntOk(a.cursoId)
  }

  predicate TurmaFits(t: Turma) {
    && |t.nome| <= NomeMax && IsInt32(t.cursoId) && IntOk(t.voluntarioId)
    && DateOk(t.dataInicio) && DateOk(t.dataFim)
  }

  /** Every id was handed out by its table's sequence, which stays within
      the INTEGER range. */
  predicate IdsAllocated(s: Store) {
    && 1 <= s.nextCursoId <= MaxInt32 + 1
    && 1 <= s.nextVoluntarioId <= MaxInt32 + 1
    && 1 <= s.nextAlunoId <= MaxInt32 + 1
    && 1 <= s.nextTurmaId <= MaxInt32 + 1
    && (forall k :: k in s.cursos ==> 1 <= k < s.nextCursoId)
    && (forall k :: k in s.voluntarios ==> 1 <= k < s.nextVoluntarioId)
    && (forall k :: k in s.alunos ==> 1 <= k < s.nextAlunoId)
    && (forall k :: k in s.turmas ==> 1 <= k < s.nextTurmaId)
  }

  /** Every stored value has its column's type. */
  predicate RowsFit(s: Store) {
    && (forall k :: k in s.cursos ==> CursoFits(s.cursos[k]))
    && (forall k :: k in s.voluntarios ==> VoluntarioFits(s.voluntarios[k]))
    && (forall k :: k in s.alunos ==> AlunoFits(s.alunos[k]))
    && (forall k :: k in s.turmas ==> TurmaFits(s.turmas[k]))
  }

  /** Every non-null foreign key names an existing row. */
  predicate ForeignKeysHold(s: Store) {
    && (forall k :: k in s.alunos && s.alunos[k].cursoId.Some? ==> s.alunos[k].cursoId.value in s.cursos)
    && (forall k :: k in s.turmas ==> s.turmas[k].cursoId in s.cursos)
    && (forall k :: k in s.turmas && s.turmas[k].voluntarioId.Some? ==> s.turmas[k].voluntarioId.value in s.voluntarios)
    && (forall p :: p in s.turmaAlunos ==> p.0 in s.turmas && p.1 in s.alunos)
  }

  /** No two volunteers and no two students share an email. */
  predicate EmailsUnique(s: Store) {
    && (forall j, k :: j in s.voluntarios && k in s.voluntarios && j != k ==> s.voluntarios[j].email != s.voluntarios[k].email)
    && (forall j, k :: j in s.alunos && k in s.alunos && j != k ==> s.alunos[j].email != s.alunos[k].email)
  }

  /** The integrity invariant of the schema. */
  predicate Valid(s: Store) {
    IdsAllocated(s) && RowsFit(s) && ForeignKeysHold(s) && EmailsUnique(s)
  }

  /** Whether some row other than `id` already uses `email`. */
  predicate VoluntarioEmailTaken(s: Store, email: string, id: int) {
    exists k :: k in s.voluntarios && k != id && s.voluntarios[k].email == email
  }

  predicate AlunoEmailTaken(s: Store, email: string, id: int) {
    exists k :: k in s.alunos && k != id && s.alunos[k].email == email
  }
}
